/** scripts/check_main_health.py: the run that speaks for a workflow, and the tracking issue over all scans. */
module CheckMainHealth {
  import opened Options
  import opened Sorting
  import opened Orders
  import opened Strings

  // ------------------------------------------------------------------ runs

  datatype Run = Run(event: Option<string>, conclusion: Option<string>, number: int)

  const IGNORED_EVENTS: set<string> := {"workflow_dispatch"}
  const RED_CONCLUSIONS: set<string> := {"failure", "timed_out", "startup_failure"}
  const OK_CONCLUSIONS: set<string> := {"success", "skipped", "neutral", "cancelled", "action_required"}
  const RUNS_PER_PAGE := 20
  const ISSUES_PER_PAGE := 20

  /** `classify(...) == "red"`: unknown conclusions count as red, a missing one does not. */
  predicate IsRed(conclusion: Option<string>) {
    conclusion.Some? && (conclusion.value in RED_CONCLUSIONS || conclusion.value !in OK_CONCLUSIONS)
  }

  predicate IsAutomatic(run: Run) { run.event.None? || run.event.value !in IGNORED_EVENTS }

  /** The newest automatic run of a newest-first history. */
  function SelectMainRun(runs: seq<Run>): Option<Run> {
    if runs == [] then None
    else if IsAutomatic(runs[0]) then Some(runs[0])
    else SelectMainRun(runs[1..])
  }

  function Page<T>(s: seq<T>, n: nat): seq<T> { if |s| <= n then s else s[..n] }

  /** `latest_main_run`: only one page of the history is ever fetched. */
  function LatestMainRun(history: seq<Run>): Option<Run> { SelectMainRun(Page(history, RUNS_PER_PAGE)) }

  lemma {:induction false} SelectSkipsManual(front: seq<Run>, back: seq<Run>)
    requires forall k :: 0 <= k < |front| ==> !IsAutomatic(front[k])
    ensures SelectMainRun(front + back) == SelectMainRun(back)
  {
    if front == [] {
      assert front + back == back;
    } else {
      assert (front + back)[1..] == front[1..] + back;
      SelectSkipsManual(front[1..], back);
    }
  }

  /** Manual dispatches, wherever they fall in the history, never change the choice. */
  lemma {:induction false} ManualRunsAreInvisible(front: seq<Run>, manual: seq<Run>, back: seq<Run>)
    requires forall k :: 0 <= k < |manual| ==> !IsAutomatic(manual[k])
    ensures SelectMainRun(front + manual + back) == SelectMainRun(front + back)
  {
    if front == [] {
      assert front + manual + back == manual + back && front + back == back;
      SelectSkipsManual(manual, back);
    } else {
      assert (front + manual + back)[1..] == front[1..] + manual + back;
      assert (front + back)[1..] == front[1..] + back;
      ManualRunsAreInvisible(front[1..], manual, back);
    }
  }

  /** The newest run that nobody dispatched by hand. */
  ghost predicate NewestAutomatic(runs: seq<Run>, k: nat) {
    && k < |runs| && runs[k].event != Some("workflow_dispatch")
    && forall j :: 0 <= j < k ==> runs[j].event == Some("workflow_dispatch")
  }

  /** The choice is the first automatic run, if there is one. */
  lemma {:induction false} SelectedIsFirstAutomatic(runs: seq<Run>, k: nat)
    requires NewestAutomatic(runs, k)
    ensures SelectMainRun(runs) == Some(runs[k])
  {
    if k > 0 {
      assert runs[0].event == Some("workflow_dispatch");
      SelectedIsFirstAutomatic(runs[1..], k - 1);
    }
  }

  lemma {:induction false} FirstAutomatic(runs: seq<Run>) returns (k: nat)
    requires SelectMainRun(runs).Some?
    ensures NewestAutomatic(runs, k) && SelectMainRun(runs) == Some(runs[k])
  {
    if IsAutomatic(runs[0]) {
      k := 0;
    } else {
      k := FirstAutomatic(runs[1..]);
      k := k + 1;
      assert forall j :: 1 <= j < k ==> runs[j] == runs[1..][j - 1];
    }
  }

  lemma {:induction false} NothingSelected(runs: seq<Run>)
    ensures SelectMainRun(runs).None? <==> forall k :: 0 <= k < |runs| ==> runs[k].event == Some("workflow_dispatch")
  {
    if runs != [] && !IsAutomatic(runs[0]) {
      NothingSelected(runs[1..]);
      assert forall k :: 1 <= k < |runs| ==> runs[k] == runs[1..][k - 1];
    }
  }

  /** The page limit matters in one case only: the fetched page misses the newest
      automatic run exactly when twenty or more manual ones are newer. */
  lemma PageMissesAutomaticRun(history: seq<Run>)
    ensures LatestMainRun(history) == SelectMainRun(history) <==>
            !(|history| > RUNS_PER_PAGE
              && (forall k :: 0 <= k < RUNS_PER_PAGE ==> !IsAutomatic(history[k]))
              && (exists k :: RUNS_PER_PAGE <= k < |history| && IsAutomatic(history[k])))
  {
    if |history| > RUNS_PER_PAGE {
      var page, rest := history[..RUNS_PER_PAGE], history[RUNS_PER_PAGE..];
      assert history == page + rest;
      NothingSelected(history);
      NothingSelected(page);
      if SelectMainRun(page).Some? {
        SelectKeepsPrefix(page, rest);
      } else {
        assert forall k :: 0 <= k < RUNS_PER_PAGE ==> history[k] == page[k];
      }
    }
  }

  lemma {:induction false} SelectKeepsPrefix(page: seq<Run>, rest: seq<Run>)
    requires SelectMainRun(page).Some?
    ensures SelectMainRun(page + rest) == SelectMainRun(page)
  {
    if !IsAutomatic(page[0]) {
      assert (page + rest)[1..] == page[1..] + rest;
      SelectKeepsPrefix(page[1..], rest);
    }
  }

  // --------------------------------------------------------------- records

  datatype Record = Record(name: string, conclusion: Option<string>)

  /** One record per workflow that has an automatic run on main. */
  function CollectRecords(histories: seq<(string, seq<Run>)>): seq<Record> {
    if histories == [] then []
    else
      var (name, history) := histories[|histories| - 1];
      var run := LatestMainRun(history);
      CollectRecords(histories[..|histories| - 1])
      + if run.Some? then [Record(name, run.value.conclusion)] else []
  }

  function RedsOf(records: seq<Record>): seq<Record> {
    if records == [] then []
    else
      var r := records[|records| - 1];
      RedsOf(records[..|records| - 1]) + if IsRed(r.conclusion) then [r] else []
  }

  function ByName(lower: string -> string): (Record, Record) -> bool {
    (a: Record, b: Record) => StringLe(lower(a.name), lower(b.name))
  }

  /** `red_workflows`; `lower` is the string library's case folding. */
  function RedWorkflows(records: seq<Record>, lower: string -> string): seq<Record> {
    Sort(RedsOf(records), ByName(lower))
  }

  lemma {:induction false} RedsOfMembers(records: seq<Record>, r: Record)
    ensures r in RedsOf(records) <==> r in records && IsRed(r.conclusion)
  {
    if records != [] {
      var n := |records| - 1;
      assert records == records[..n] + [records[n]];
      RedsOfMembers(records[..n], r);
    }
  }

  /** The workflow has concluded, and not with one of the harmless conclusions. */
  ghost predicate Broken(conclusion: Option<string>) {
    conclusion.Some? && conclusion.value !in {"success", "skipped", "neutral", "cancelled", "action_required"}
  }

  lemma RedIsBroken(conclusion: Option<string>)
    ensures IsRed(conclusion) <==> Broken(conclusion)
  {
  }

  /** The records reported are those of broken workflows. */
  lemma RedsAreBroken(records: seq<Record>, lower: string -> string, r: Record)
    ensures r in RedWorkflows(records, lower) <==> r in records && Broken(r.conclusion)
  {
    SortKeepsMembers(RedsOf(records), ByName(lower), r);
    RedsOfMembers(records, r);
    RedIsBroken(r.conclusion);
  }

  /** The report is sorted by name, in lower case. */
  lemma RedsAreSorted(records: seq<Record>, lower: string -> string, i: nat, j: nat)
    requires i < j < |RedWorkflows(records, lower)|
    ensures var reds := RedWorkflows(records, lower); StringLe(lower(reds[i].name), lower(reds[j].name))
  {
    var le := ByName(lower);
    forall a, b ensures le(a, b) || le(b, a) { StringLeTotal(lower(a.name), lower(b.name)); }
    forall a, b, c | le(a, b) && le(b, c) ensures le(a, c) {
      StringLeTransitive(lower(a.name), lower(b.name), lower(c.name));
    }
    SortSorts(RedsOf(records), le);
  }

  /** Nothing is reported exactly when no scanned workflow is red. */
  lemma NoRedsWhenClean(records: seq<Record>, lower: string -> string)
    ensures RedWorkflows(records, lower) == [] <==> forall r :: r in records ==> !Broken(r.conclusion)
  {
    var reds := RedWorkflows(records, lower);
    forall r ensures r in reds <==> r in records && Broken(r.conclusion) { RedsAreBroken(records, lower, r); }
    if reds != [] { assert reds[0] in reds; }
  }

  /** The newest automatic run among the newest twenty is broken. */
  ghost predicate BrokenOnMain(history: seq<Run>) {
    exists k: nat :: k < 20 && NewestAutomatic(history, k) && Broken(history[k].conclusion)
  }

  lemma PageVerdict(history: seq<Run>)
    ensures BrokenOnMain(history) <==> LatestMainRun(history).Some? && Broken(LatestMainRun(history).value.conclusion)
  {
    var page := Page(history, RUNS_PER_PAGE);
    if LatestMainRun(history).Some? {
      var k := FirstAutomatic(page);
      assert NewestAutomatic(history, k);
    }
    if k: nat :| k < 20 && NewestAutomatic(history, k) && Broken(history[k].conclusion) {
      assert NewestAutomatic(page, k);
      SelectedIsFirstAutomatic(page, k);
    }
  }

  lemma {:induction false} RecordOfLane(histories: seq<(string, seq<Run>)>, r: Record)
    ensures r in CollectRecords(histories) <==>
      exists w :: w in histories && LatestMainRun(w.1).Some? && r == Record(w.0, LatestMainRun(w.1).value.conclusion)
  {
    if histories != [] {
      var n := |histories| - 1;
      assert histories == histories[..n] + [histories[n]];
      RecordOfLane(histories[..n], r);
    }
  }

  /** From the histories to the verdict: main is red exactly when some workflow's newest
      automatic run, among the newest twenty, is broken. */
  lemma RedExactlyWhenALaneIsBroken(histories: seq<(string, seq<Run>)>, lower: string -> string)
    ensures RedWorkflows(CollectRecords(histories), lower) != [] <==> exists w :: w in histories && BrokenOnMain(w.1)
  {
    var records := CollectRecords(histories);
    NoRedsWhenClean(records, lower);
    forall w | w in histories ensures BrokenOnMain(w.1) ==> exists r :: r in records && Broken(r.conclusion) {
      PageVerdict(w.1);
      if BrokenOnMain(w.1) {
        var r := Record(w.0, LatestMainRun(w.1).value.conclusion);
        RecordOfLane(histories, r);
        assert r in records;
      }
    }
    if r :| r in records && Broken(r.conclusion) {
      RecordOfLane(histories, r);
      var w :| w in histories && LatestMainRun(w.1).Some? && r == Record(w.0, LatestMainRun(w.1).value.conclusion);
      PageVerdict(w.1);
    }
  }

  // ---------------------------------------------------------------- tracker

  const MARKER := "<!-- main-health-tracker -->"

  datatype Issue = Issue(open: bool, labelled: bool, isPullRequest: bool, title: string, body: Option<string>)

  predicate IsListed(i: Issue) { i.open && i.labelled }

  predicate HasMarker(i: Issue) { !i.isPullRequest && i.body.Some? && Contains(i.body.value, MARKER) }

  /** An open tracking issue. */
  predicate IsTracker(i: Issue) { IsListed(i) && HasMarker(i) }

  /** A tracker is an open issue, not a pull request, that carries the label and has the
      marker somewhere in its body. */
  lemma TrackerMeaning(i: Issue)
    ensures IsTracker(i) <==>
      && i.open && i.labelled && !i.isPullRequest && i.body.Some?
      && exists a, b :: Surrounds(i.body.value, a, "<!-- main-health-tracker -->", b)
  {
    if i.body.Some? { ContainsMeaning(i.body.value, MARKER); }
  }

  /** `find_tracker_issue` over the repository's issues, newest first: the position of
      the first tracker among the first `quota` open labelled issues, or -1. */
  function FindFrom(issues: seq<Issue>, quota: nat): int {
    if issues == [] || quota == 0 then -1
    else if IsTracker(issues[0]) then 0
    else
      var k := FindFrom(issues[1..], if IsListed(issues[0]) then quota - 1 else quota);
      if k < 0 then -1 else k + 1
  }

  function FindTracker(issues: seq<Issue>): (k: int)
    ensures k < |issues|
  {
    FindBounds(issues, ISSUES_PER_PAGE);
    FindFrom(issues, ISSUES_PER_PAGE)
  }

  lemma {:induction false} FindBounds(issues: seq<Issue>, quota: nat)
    ensures -1 <= FindFrom(issues, quota) < |issues|
    ensures FindFrom(issues, quota) >= 0 ==> IsTracker(issues[FindFrom(issues, quota)])
  {
    if issues != [] && quota > 0 && !IsTracker(issues[0]) {
      FindBounds(issues[1..], if IsListed(issues[0]) then quota - 1 else quota);
    }
  }

  /** What the issue says; `render` is the table of red lanes. */
  function Body(reds: seq<Record>, render: seq<Record> -> string): string { MARKER + render(reds) }

  /** The repository's issues after one `upsert_tracker`. */
  function Step(issues: seq<Issue>, reds: seq<Record>, title: seq<Record> -> string,
                render: seq<Record> -> string): seq<Issue> {
    var k := FindTracker(issues);
    if reds != [] then
      if k >= 0 then issues[k := issues[k].(title := title(reds), body := Some(Body(reds, render)))]
      else [Issue(true, true, false, title(reds), Some(Body(reds, render)))] + issues
    else if k >= 0 then issues[k := issues[k].(open := false)]
    else issues
  }

  datatype Action = Updated | Opened | Closed | Nothing

  class Repository {
    var issues: seq<Issue>

    constructor (initial: seq<Issue>)
      ensures issues == initial
    {
      issues := initial;
    }

    method UpsertTracker(reds: seq<Record>, title: seq<Record> -> string, render: seq<Record> -> string)
      returns (action: Action)
      modifies this
      ensures issues == Step(old(issues), reds, title, render)
      ensures action == if reds != [] then (if FindTracker(old(issues)) >= 0 then Updated else Opened)
                        else if FindTracker(old(issues)) >= 0 then Closed else Nothing
      ensures action.Opened? <==> |issues| == |old(issues)| + 1
      ensures CountTrackers(old(issues)) <= 1 && CountOthers(old(issues)) < ISSUES_PER_PAGE ==>
        Reconciles(old(issues), issues, reds, title, render)
    {
      if CountTrackers(issues) <= 1 && CountOthers(issues) < ISSUES_PER_PAGE {
        StepReconciles(issues, reds, title, render);
      }
      var existing := FindTracker(issues);
      if reds != [] {
        var body := Body(reds, render);
        if existing >= 0 {
          issues := issues[existing := issues[existing].(title := title(reds), body := Some(body))];
          return Updated;
        }
        issues := [Issue(true, true, false, title(reds), Some(body))] + issues;
        return Opened;
      }
      if existing >= 0 {
        issues := issues[existing := issues[existing].(open := false)];
        return Closed;
      }
      return Nothing;
    }
  }

  // ------------------------------------------------------- safety over runs

  function CountTrackers(issues: seq<Issue>): nat {
    if issues == [] then 0 else (if IsTracker(issues[0]) then 1 else 0) + CountTrackers(issues[1..])
  }

  /** Open issues that carry the label without being the tracker. */
  function CountOthers(issues: seq<Issue>): nat {
    if issues == [] then 0
    else (if issues[0].open && issues[0].labelled && !IsTracker(issues[0]) then 1 else 0) + CountOthers(issues[1..])
  }

  /** With fewer other labelled issues than the page holds, a tracker is found iff there is one. */
  lemma {:induction false} FindSucceeds(issues: seq<Issue>, quota: nat)
    requires CountOthers(issues) < quota
    ensures FindFrom(issues, quota) >= 0 <==> CountTrackers(issues) > 0
  {
    if issues != [] && !IsTracker(issues[0]) {
      FindSucceeds(issues[1..], if IsListed(issues[0]) then quota - 1 else quota);
    }
  }

  lemma {:induction false} CountsAfterChange(issues: seq<Issue>, k: nat, i: Issue)
    requires k < |issues| && IsTracker(issues[k]) && (IsTracker(i) || !IsListed(i))
    ensures CountTrackers(issues[k := i]) == CountTrackers(issues) - (if IsTracker(i) then 0 else 1)
    ensures CountOthers(issues[k := i]) == CountOthers(issues)
  {
    if k > 0 {
      CountsAfterChange(issues[1..], k - 1, i);
      assert issues[k := i][1..] == issues[1..][k - 1 := i];
    } else {
      assert issues[k := i][1..] == issues[1..];
    }
  }

  /** `after` holds the issues in place behind the new ones, all but the trackers as they were. */
  ghost predicate OthersUntouched(issues: seq<Issue>, after: seq<Issue>) {
    && |issues| <= |after|
    && forall k :: 0 <= k < |issues| && !IsTracker(issues[k]) ==> after[|after| - |issues| + k] == issues[k]
  }

  /** One scan: afterwards exactly one tracker is open if anything is red and none
      otherwise; an issue is created exactly when a red scan finds no open tracker; and
      every issue that is not the tracker stays as it was. */
  lemma StepKeepsOneTracker(issues: seq<Issue>, reds: seq<Record>, title: seq<Record> -> string,
                            render: seq<Record> -> string)
    requires CountTrackers(issues) <= 1 && CountOthers(issues) < ISSUES_PER_PAGE
    ensures var after := Step(issues, reds, title, render);
      && CountTrackers(after) == (if reds != [] then 1 else 0)
      && CountOthers(after) == CountOthers(issues)
      && |after| == |issues| + (if reds != [] && CountTrackers(issues) == 0 then 1 else 0)
      && OthersUntouched(issues, after)
  {
    FindSucceeds(issues, ISSUES_PER_PAGE);
    FindBounds(issues, ISSUES_PER_PAGE);
    var k := FindTracker(issues);
    var after := Step(issues, reds, title, render);
    if reds != [] {
      assert Contains(Body(reds, render), MARKER);
      if k >= 0 {
        CountsAfterChange(issues, k, after[k]);
      } else {
        assert after[1..] == issues;
      }
    } else if k >= 0 {
      CountsAfterChange(issues, k, after[k]);
    }
  }

  /** The issues after a whole history of scans, no one else touching them. */
  function AfterScans(issues: seq<Issue>, scans: seq<seq<Record>>, title: seq<Record> -> string,
                      render: seq<Record> -> string): seq<Issue> {
    if scans == [] then issues
    else Step(AfterScans(issues, scans[..|scans| - 1], title, render), scans[|scans| - 1], title, render)
  }

  /** How often main turned from clean to red, given whether it starts with an open tracker. */
  function Onsets(open: bool, scans: seq<seq<Record>>): nat {
    if scans == [] then 0
    else
      var n := |scans| - 1;
      var before := if n == 0 then open else scans[n - 1] != [];
      Onsets(open, scans[..n]) + if scans[n] != [] && !before then 1 else 0
  }

  /** Over any history of scans: at most one tracker is ever open, it is open exactly
      when the latest scan was red, and one issue is created per turn from clean to red. */
  lemma {:induction false} OneTrackerForever(issues: seq<Issue>, scans: seq<seq<Record>>,
                                             title: seq<Record> -> string, render: seq<Record> -> string)
    requires CountTrackers(issues) <= 1 && CountOthers(issues) < ISSUES_PER_PAGE
    ensures var after := AfterScans(issues, scans, title, render);
      && CountTrackers(after) <= 1 && CountOthers(after) == CountOthers(issues)
      && (scans != [] ==> (CountTrackers(after) == 1 <==> scans[|scans| - 1] != []))
      && |after| == |issues| + Onsets(CountTrackers(issues) == 1, scans)
    decreases |scans|
  {
    if scans != [] {
      var n := |scans| - 1;
      OneTrackerForever(issues, scans[..n], title, render);
      StepKeepsOneTracker(AfterScans(issues, scans[..n], title, render), scans[n], title, render);
      assert n > 0 ==> scans[..n][n - 1] == scans[n - 1];
    }
  }

  lemma UntouchedTwice(a: seq<Issue>, b: seq<Issue>, c: seq<Issue>)
    requires OthersUntouched(a, b) && OthersUntouched(b, c)
    ensures OthersUntouched(a, c)
  {
    forall k | 0 <= k < |a| && !IsTracker(a[k]) ensures c[|c| - |a| + k] == a[k] {
      assert b[|b| - |a| + k] == a[k];
    }
  }

  /** Over any history of scans, every issue that is not a tracker stays as it was. */
  lemma {:induction false} OthersUntouchedForever(issues: seq<Issue>, scans: seq<seq<Record>>,
                                                  title: seq<Record> -> string, render: seq<Record> -> string)
    requires CountTrackers(issues) <= 1 && CountOthers(issues) < ISSUES_PER_PAGE
    ensures OthersUntouched(issues, AfterScans(issues, scans, title, render))
    decreases |scans|
  {
    if scans != [] {
      var n := |scans| - 1;
      var before := AfterScans(issues, scans[..n], title, render);
      OthersUntouchedForever(issues, scans[..n], title, render);
      OneTrackerForever(issues, scans[..n], title, render);
      StepKeepsOneTracker(before, scans[n], title, render);
      UntouchedTwice(issues, before, Step(before, scans[n], title, render));
    }
  }

  // ------------------------------------------------ what the tracker says

  /** How one scan that sees every tracker changes the issues: a clean one closes the
      trackers and nothing else, a red one rewrites their title and body and nothing else,
      or opens one if there is none. */
  ghost predicate Reconciles(before: seq<Issue>, after: seq<Issue>, reds: seq<Record>,
                             title: seq<Record> -> string, render: seq<Record> -> string) {
    if reds == [] then
      && |after| == |before|
      && forall k :: 0 <= k < |before| ==>
        after[k] == if IsTracker(before[k]) then before[k].(open := false) else before[k]
    else if exists k :: 0 <= k < |before| && IsTracker(before[k]) then
      && |after| == |before|
      && forall k :: 0 <= k < |before| ==>
        after[k] == if IsTracker(before[k])
                    then before[k].(title := title(reds), body := Some(MARKER + render(reds))) else before[k]
    else after == [Issue(true, true, false, title(reds), Some(MARKER + render(reds)))] + before
  }

  lemma {:induction false} OnlyTracker(issues: seq<Issue>, j: nat, k: nat)
    requires CountTrackers(issues) <= 1 && j < |issues| && k < |issues| && IsTracker(issues[j]) && IsTracker(issues[k])
    ensures j == k
  {
    if j > 0 && k > 0 {
      OnlyTracker(issues[1..], j - 1, k - 1);
    } else if j > 0 {
      TrackerCounted(issues[1..], j - 1);
    } else if k > 0 {
      TrackerCounted(issues[1..], k - 1);
    }
  }

  lemma StepReconciles(issues: seq<Issue>, reds: seq<Record>, title: seq<Record> -> string,
                       render: seq<Record> -> string)
    requires CountTrackers(issues) <= 1 && CountOthers(issues) < ISSUES_PER_PAGE
    ensures Reconciles(issues, Step(issues, reds, title, render), reds, title, render)
  {
    FindSucceeds(issues, ISSUES_PER_PAGE);
    FindBounds(issues, ISSUES_PER_PAGE);
    var k := FindTracker(issues);
    forall j | 0 <= j < |issues| && IsTracker(issues[j]) ensures j == k {
      TrackerCounted(issues, j);
      OnlyTracker(issues, j, k);
    }
  }

  /** Each scan of a history reconciles the issues that the scans before it have left. */
  lemma ScansReconcile(issues: seq<Issue>, scans: seq<seq<Record>>, reds: seq<Record>,
                       title: seq<Record> -> string, render: seq<Record> -> string)
    requires CountTrackers(issues) <= 1 && CountOthers(issues) < ISSUES_PER_PAGE
    ensures Reconciles(AfterScans(issues, scans, title, render), AfterScans(issues, scans + [reds], title, render),
                       reds, title, render)
  {
    assert (scans + [reds])[..|scans|] == scans;
    OneTrackerForever(issues, scans, title, render);
    StepReconciles(AfterScans(issues, scans, title, render), reds, title, render);
  }

  /** The only open tracker is at `k`, and it says what `reds` found. */
  ghost predicate Says(issues: seq<Issue>, k: nat, reds: seq<Record>, title: seq<Record> -> string,
                       render: seq<Record> -> string) {
    && k < |issues| && IsTracker(issues[k])
    && issues[k].title == title(reds) && issues[k].body == Some(MARKER + render(reds))
    && forall j :: 0 <= j < |issues| && j != k ==> !IsTracker(issues[j])
  }

  /** After any history that ends in a red scan there is one open tracker, and its title
      and body are those of that scan. */
  lemma TrackerSaysTheLastScan(issues: seq<Issue>, scans: seq<seq<Record>>, reds: seq<Record>,
                               title: seq<Record> -> string, render: seq<Record> -> string) returns (k: nat)
    requires CountTrackers(issues) <= 1 && CountOthers(issues) < ISSUES_PER_PAGE && reds != []
    ensures Says(AfterScans(issues, scans + [reds], title, render), k, reds, title, render)
  {
    var before, after := AfterScans(issues, scans, title, render), AfterScans(issues, scans + [reds], title, render);
    ScansReconcile(issues, scans, reds, title, render);
    OneTrackerForever(issues, scans, title, render);
    OneTrackerForever(issues, scans + [reds], title, render);
    assert Contains(MARKER + render(reds), MARKER);
    if exists j :: 0 <= j < |before| && IsTracker(before[j]) {
      k :| 0 <= k < |before| && IsTracker(before[k]);
    } else {
      k := 0;
    }
    forall j | 0 <= j < |after| && IsTracker(after[j]) ensures j == k { OnlyTracker(after, j, k); }
  }

  /** Open labelled issues newer than position `k`. */
  function ListedBefore(issues: seq<Issue>, k: nat): nat
    requires k <= |issues|
  {
    if k == 0 then 0
    else (if issues[0].open && issues[0].labelled then 1 else 0) + ListedBefore(issues[1..], k - 1)
  }

  lemma {:induction false} FoundWithinPage(issues: seq<Issue>, k: nat, quota: nat)
    requires k < |issues| && IsTracker(issues[k]) && CountTrackers(issues) == 1
    ensures FindFrom(issues, quota) == if ListedBefore(issues, k) < quota then k else -1
  {
    if k > 0 {
      TrackerCounted(issues[1..], k - 1);
      assert !IsTracker(issues[0]);
      if quota > 0 {
        FoundWithinPage(issues[1..], k - 1, if IsListed(issues[0]) then quota - 1 else quota);
      }
    }
  }

  lemma {:induction false} TrackerCounted(issues: seq<Issue>, k: nat)
    requires k < |issues| && IsTracker(issues[k])
    ensures CountTrackers(issues) > 0
  {
    if k > 0 {
      TrackerCounted(issues[1..], k - 1);
    }
  }

  /** With one open tracker, a scan leaves what it should, one tracker if anything is red
      and none otherwise, exactly when the tracker is on the page searched.  Beyond it a red
      scan opens a second tracker, and a clean scan leaves the first one open. */
  lemma TrackerFollowsExactlyWithinPage(issues: seq<Issue>, k: nat, reds: seq<Record>,
                                        title: seq<Record> -> string, render: seq<Record> -> string)
    requires k < |issues| && IsTracker(issues[k]) && CountTrackers(issues) == 1
    ensures var after := CountTrackers(Step(issues, reds, title, render));
      && (after == (if reds != [] then 1 else 0) <==> ListedBefore(issues, k) < 20)
      && (ListedBefore(issues, k) >= 20 ==> after == if reds != [] then 2 else 1)
  {
    FoundWithinPage(issues, k, ISSUES_PER_PAGE);
    var after := Step(issues, reds, title, render);
    if reds != [] { assert Contains(Body(reds, render), MARKER); }
    if ListedBefore(issues, k) < ISSUES_PER_PAGE {
      CountsAfterChange(issues, k, after[k]);
    } else if reds != [] {
      assert after[1..] == issues;
    }
  }

  // ------------------------------------------------- inputs beyond the page

  const MANUAL := Run(Some("workflow_dispatch"), Some("success"), 1)
  const SCHEDULED := Run(Some("schedule"), Some("failure"), 0)

  /** Twenty manual runs hide a failed scheduled one. */
  lemma ManualRunsCanFillThePage()
    ensures var history := seq(RUNS_PER_PAGE, _ => MANUAL) + [SCHEDULED];
      LatestMainRun(history) == None && SelectMainRun(history) == Some(SCHEDULED)
  {
    var manual := seq(RUNS_PER_PAGE, _ => MANUAL);
    var history := manual + [SCHEDULED];
    assert Page(history, RUNS_PER_PAGE) == manual;
    NothingSelected(manual);
    SelectedIsFirstAutomatic(history, RUNS_PER_PAGE);
  }

  /** `n` newer labelled issues in front of the tracker. */
  function Behind(n: nat, other: Issue, tracker: Issue): seq<Issue> {
    if n == 0 then [tracker] else [other] + Behind(n - 1, other, tracker)
  }

  lemma {:induction false} BehindCounts(n: nat, other: Issue, tracker: Issue)
    requires IsListed(other) && !IsTracker(other) && IsTracker(tracker)
    ensures var issues := Behind(n, other, tracker);
      |issues| == n + 1 && issues[n] == tracker && CountTrackers(issues) == 1 && ListedBefore(issues, n) == n
  {
    if n > 0 {
      BehindCounts(n - 1, other, tracker);
      assert Behind(n, other, tracker)[1..] == Behind(n - 1, other, tracker);
    }
  }

  /** Twenty newer labelled issues hide the tracker from a red scan and from a clean one. */
  lemma LabelledIssuesCanHideTheTracker(other: Issue, tracker: Issue, reds: seq<Record>,
                                        title: seq<Record> -> string, render: seq<Record> -> string)
    requires IsListed(other) && !IsTracker(other) && IsTracker(tracker)
    ensures CountTrackers(Step(Behind(ISSUES_PER_PAGE, other, tracker), reds, title, render))
         == if reds != [] then 2 else 1
  {
    BehindCounts(ISSUES_PER_PAGE, other, tracker);
    TrackerFollowsExactlyWithinPage(Behind(ISSUES_PER_PAGE, other, tracker), ISSUES_PER_PAGE, reds, title, render);
  }
}
