/** The scan coordinator of the popup window: scanning one conversation,
    handling a finished analysis, the full scan over every one-on-one
    conversation, and the logout reset. The conversation list is an input
    (`Result` because fetching it may raise), the classifier is a function
    parameter, and the tray alerts raised so far are a sequence of
    conversation names. */
module ScanCoordinator {
  import opened Wrappers
  import opened Labels
  import opened ResultStore
  import opened TextAggregator
  import Selection

  /** A conversation of the account: its display name, whether the peer is a
      single user, and its history newest first (fetching it may raise). */
  datatype Dialog = Dialog(name: string, isUser: bool, history: Result<seq<Message>>)

  /** One analysis thread: the conversation name and the stripped texts. */
  datatype Task = Task(name: string, texts: seq<string>)

  /** What one `analyze_chat` call did: no conversation had the name, none of
      the fetched messages had text, a thread was started, or an exception was
      caught and shown as a status message. */
  datatype ChatOutcome = Missing | NoText | Dispatched(task: Task) | Failed(error: string)

  /** The persisted files and the tray alerts shown so far, oldest first. */
  datatype Store = Store(logFile: LogFile, scanFile: IndexFile, alerts: seq<string>)

  /** A finished analysis as delivered to `handle_analysis_result`, with the two
      clock readings that call takes (the index time and the log time). */
  datatype Completion = Completion(name: string, result: string, scanTime: Timestamp, logTime: Timestamp)

  /** The result of `run_full_scan`: the progress bar's maximum and final
      value, the names passed to `analyze_chat` and what each call did; or the
      message of the exception that aborted it. */
  datatype FullScanReport =
    | Completed(maximum: nat, progress: nat, calls: seq<string>, outcomes: seq<ChatOutcome>)
    | Aborted(error: string)

  /** The position of the first conversation called `name`, as
      `next((d for d in dialogs if d.name == name), None)` finds it. */
  function FirstNamed(dialogs: seq<Dialog>, name: string): (r: Option<nat>)
    ensures r.Some? ==> r.value < |dialogs| && dialogs[r.value].name == name
    ensures r.Some? ==> forall j :: 0 <= j < r.value ==> dialogs[j].name != name
    ensures r.None? <==> forall j :: 0 <= j < |dialogs| ==> dialogs[j].name != name
    decreases |dialogs|
  {
    if |dialogs| == 0 then None
    else if dialogs[0].name == name then Some(0)
    else
      match FirstNamed(dialogs[1..], name)
      case None => None
      case Some(i) => Some(i + 1)
  }

  /** `analyze_chat`: find the first conversation with the name, fetch at most
      ten newest messages, collect their stripped texts, and start an analysis
      thread only when at least one text was collected. */
  function AnalyzeChat(source: Result<seq<Dialog>>, name: string): (r: ChatOutcome)
    ensures r.Failed? <==> (source.Err? ||
      (FirstNamed(source.value, name).Some? && source.value[FirstNamed(source.value, name).value].history.Err?))
    ensures r.Missing? <==> source.Ok? && FirstNamed(source.value, name).None?
    ensures r.Dispatched? ==> r.task.name == name && 0 < |r.task.texts| <= Window
    ensures r.Dispatched? ==>
      && source.Ok? && FirstNamed(source.value, name).Some?
      && var d := source.value[FirstNamed(source.value, name).value];
      && d.history.Ok?
      && r.task.texts == Texts(FetchWindow(d.history.value))
  {
    match source
    case Err(e) => Failed(e)
    case Ok(dialogs) =>
      match FirstNamed(dialogs, name)
      case None => Missing
      case Some(i) =>
        match dialogs[i].history
        case Err(e) => Failed(e)
        case Ok(history) =>
          var texts := Texts(FetchWindow(history));
          if texts == [] then NoText else Dispatched(Task(name, texts))
  }

  /** A thread is started exactly when a conversation has the name, its
      messages could be fetched, and one of the ten newest has text. */
  lemma AnalyzeChatDispatchesIff(source: Result<seq<Dialog>>, name: string)
    ensures AnalyzeChat(source, name).Dispatched? <==>
      && source.Ok? && FirstNamed(source.value, name).Some?
      && var d := source.value[FirstNamed(source.value, name).value];
      && d.history.Ok?
      && exists j :: 0 <= j < |FetchWindow(d.history.value)| && HasText(FetchWindow(d.history.value)[j])
  {
    if source.Ok? && FirstNamed(source.value, name).Some? {
      var d := source.value[FirstNamed(source.value, name).value];
      if d.history.Ok? {
        TextsEmptyIff(FetchWindow(d.history.value));
      }
    }
  }

  /** `AnalysisThread.run`: join the texts, classify, and emit the name with
      the label string. */
  function RunTask(t: Task, infer: string -> Inference): (r: (string, string))
    ensures r.0 == t.name
    ensures r.1 == ScamText <==> infer(Join(t.texts)) == Predicted(1)
    ensures r.1 == NormalText <==> infer(Join(t.texts)).Predicted? && infer(Join(t.texts)).pred != 1
    ensures infer(Join(t.texts)).Raised? ==> r.1 == ErrorPrefix + infer(Join(t.texts)).error
  {
    var verdict := Predict(infer(Join(t.texts)));
    ScamTextIdentifiesScam(verdict);
    LabelTextInjective(verdict, Normal);
    (t.name, LabelText(verdict))
  }

  /** `handle_analysis_result`: record the scan time of the conversation, put
      a record at the head of the log, and raise one tray alert when the label
      is the scam label. */
  function HandleResult(st: Store, c: Completion): (st': Store)
    ensures |LoadLogs(st'.logFile)| == Min(LogCap, |LoadLogs(st.logFile)| + 1)
    ensures LoadLogs(st'.logFile)[0] == ScanRecord(c.name, c.result, c.logTime)
    ensures LoadLogs(st'.logFile)[1..] == Take(LoadLogs(st.logFile), LogCap - 1)
    ensures c.name in LoadLastScans(st'.scanFile) && LoadLastScans(st'.scanFile)[c.name] == c.scanTime
    ensures LoadLastScans(st'.scanFile).Keys == LoadLastScans(st.scanFile).Keys + {c.name}
    ensures forall k :: k in LoadLastScans(st.scanFile) && k != c.name ==>
      LoadLastScans(st'.scanFile)[k] == LoadLastScans(st.scanFile)[k]
    ensures st'.alerts == if c.result == ScamText then st.alerts + [c.name] else st.alerts
  {
    var scanFile := SaveLastScan(st.scanFile, c.name, c.scanTime);
    var logFile := SaveLog(st.logFile, ScanRecord(c.name, c.result, c.logTime));
    var alerts := if c.result == ScamText then st.alerts + [c.name] else st.alerts;
    Store(logFile, scanFile, alerts)
  }

  /** An alert follows a finished analysis exactly when the classifier
      predicted class 1; a normal verdict and a raised exception never alert. */
  lemma AlertIffPredictedScam(st: Store, t: Task, infer: string -> Inference, scanTime: Timestamp, logTime: Timestamp)
    ensures var r := RunTask(t, infer);
      |HandleResult(st, Completion(r.0, r.1, scanTime, logTime)).alerts| == |st.alerts| + 1
      <==> infer(Join(t.texts)) == Predicted(1)
  {
  }

  /** `analyze_chat` for one name followed by the completion of the thread it
      started, if any: nothing changes unless a thread was started; then the
      verdict on the joined texts heads the log, the conversation's index
      entry alone becomes the scan time, and the name is alerted exactly when
      the classifier predicted class 1. */
  function ScanOne(st: Store, source: Result<seq<Dialog>>, name: string, infer: string -> Inference,
                   scanTime: Timestamp, logTime: Timestamp): (st': Store)
    ensures !AnalyzeChat(source, name).Dispatched? ==> st' == st
    ensures AnalyzeChat(source, name).Dispatched? ==>
      var inference := infer(Join(AnalyzeChat(source, name).task.texts));
      && |LoadLogs(st'.logFile)| == Min(LogCap, |LoadLogs(st.logFile)| + 1)
      && LoadLogs(st'.logFile)[0] == ScanRecord(name, LabelText(Predict(inference)), logTime)
      && LoadLogs(st'.logFile)[1..] == Take(LoadLogs(st.logFile), LogCap - 1)
      && LoadLastScans(st'.scanFile) == LoadLastScans(st.scanFile)[name := scanTime]
      && st'.alerts == if inference == Predicted(1) then st.alerts + [name] else st.alerts
  {
    var outcome := AnalyzeChat(source, name);
    if outcome.Dispatched? then
      var r := RunTask(outcome.task, infer);
      ScamTextIdentifiesScam(Predict(infer(Join(outcome.task.texts))));
      HandleResult(st, Completion(r.0, r.1, scanTime, logTime))
    else st
  }

  predicate IsUserDialog(d: Dialog)
  {
    d.isUser
  }

  function DialogName(d: Dialog): string
  {
    d.name
  }

  /** What `analyze_chat` does for each of `names`, in order. */
  function AnalyzeEach(source: Result<seq<Dialog>>, names: seq<string>): (outcomes: seq<ChatOutcome>)
    ensures |outcomes| == |names|
    ensures forall k :: 0 <= k < |names| ==> outcomes[k] == AnalyzeChat(source, names[k])
  {
    seq(|names|, k requires 0 <= k < |names| => AnalyzeChat(source, names[k]))
  }

  lemma AnalyzeEachSnoc(source: Result<seq<Dialog>>, names: seq<string>, name: string)
    ensures AnalyzeEach(source, names + [name]) == AnalyzeEach(source, names) + [AnalyzeChat(source, name)]
  {
  }

  /** The loop of `run_full_scan` over the listed conversations: each
      one-on-one conversation, in list order, gets one `analyze_chat` call
      (which looks its name up in `source` again) and one progress step; the
      others are skipped. */
  method AnalyzeUsers(source: Result<seq<Dialog>>, dialogs: seq<Dialog>)
    returns (progress: nat, calls: seq<string>, outcomes: seq<ChatOutcome>)
    ensures progress == |Selection.Filter(dialogs, IsUserDialog)|
    ensures calls == Selection.Map(Selection.Filter(dialogs, IsUserDialog), DialogName)
    ensures outcomes == AnalyzeEach(source, calls)
  {
    progress := 0;
    calls := [];
    outcomes := [];
    var i := 0;
    ghost var users: seq<Dialog> := [];
    while i < |dialogs|
      invariant 0 <= i <= |dialogs|
      invariant users == Selection.Filter(dialogs[..i], IsUserDialog)
      invariant progress == |users|
      invariant calls == Selection.Map(users, DialogName)
      invariant outcomes == AnalyzeEach(source, calls)
    {
      Selection.FilterPrefixStep(dialogs, i, IsUserDialog);
      if dialogs[i].isUser {
        var outcome := AnalyzeChat(source, dialogs[i].name);
        Selection.MapSnoc(users, dialogs[i], DialogName);
        AnalyzeEachSnoc(source, calls, dialogs[i].name);
        calls := calls + [dialogs[i].name];
        outcomes := outcomes + [outcome];
        progress := progress + 1;
        users := users + [dialogs[i]];
      }
      i := i + 1;
    }
    assert dialogs[..i] == dialogs;
  }

  /** `run_full_scan`: the progress maximum is the number of one-on-one
      conversations, `analyze_chat` is called once for each of them in list
      order (and for no other conversation), and progress ends at the
      maximum. A failure to list the conversations aborts the scan. */
  method RunFullScan(source: Result<seq<Dialog>>) returns (report: FullScanReport)
    ensures report.Aborted? <==> source.Err?
    ensures report.Completed? ==>
      var users := Selection.Filter(source.value, IsUserDialog);
      && report.maximum == |users|
      && report.progress == report.maximum
      && report.calls == Selection.Map(users, DialogName)
      && report.outcomes == AnalyzeEach(source, report.calls)
  {
    if source.Err? {
      return Aborted(source.message);
    }
    var maximum := |Selection.Filter(source.value, IsUserDialog)|;
    var progress, calls, outcomes := AnalyzeUsers(source, source.value);
    report := Completed(maximum, progress, calls, outcomes);
  }

  /** When two conversations share a display name, the full scan's call for
      the later one analyses the earlier one: names are the only identity. */
  lemma SharedNameAnalysesFirst(dialogs: seq<Dialog>, i: nat, j: nat)
    requires j < i < |dialogs| && dialogs[j].name == dialogs[i].name
    ensures FirstNamed(dialogs, dialogs[i].name).Some?
    ensures FirstNamed(dialogs, dialogs[i].name).value <= j
  {
  }

  /** Handling the completions one after the other, in the order the threads
      finished. */
  function CompleteAll(st: Store, cs: seq<Completion>): Store
    decreases |cs|
  {
    if |cs| == 0 then st else HandleResult(CompleteAll(st, cs[..|cs| - 1]), cs[|cs| - 1])
  }

  /** The log records the completions produce. */
  function Records(cs: seq<Completion>): (rs: seq<ScanRecord>)
    ensures |rs| == |cs|
    ensures forall k :: 0 <= k < |cs| ==> rs[k] == ScanRecord(cs[k].name, cs[k].result, cs[k].logTime)
  {
    seq(|cs|, k requires 0 <= k < |cs| => ScanRecord(cs[k].name, cs[k].result, cs[k].logTime))
  }

  lemma {:induction false} CompleteAllSavesRecords(st: Store, cs: seq<Completion>)
    ensures CompleteAll(st, cs).logFile == SaveAll(st.logFile, Records(cs))
    decreases |cs|
  {
    if |cs| > 0 {
      CompleteAllSavesRecords(st, cs[..|cs| - 1]);
      assert Records(cs)[..|cs| - 1] == Records(cs[..|cs| - 1]);
    }
  }

  /** After a batch of completions the log holds their records, the most
      recently finished first, ahead of the older records, cut to `LogCap`. */
  lemma {:induction false} CompleteAllLog(st: Store, cs: seq<Completion>)
    requires |cs| > 0
    ensures LoadLogs(CompleteAll(st, cs).logFile) == Take(Reverse(Records(cs)) + LoadLogs(st.logFile), LogCap)
  {
    CompleteAllSavesRecords(st, cs);
    SaveAllNewestFirst(st.logFile, Records(cs));
  }

  /** The record of the completion finished `k`-th sits `k` places behind
      the newest, while the cap lets it stay. */
  lemma CompleteAllRecordAt(st: Store, cs: seq<Completion>, k: nat)
    requires k < |cs| && |cs| - 1 - k < LogCap
    ensures |cs| - 1 - k < |LoadLogs(CompleteAll(st, cs).logFile)|
    ensures LoadLogs(CompleteAll(st, cs).logFile)[|cs| - 1 - k] == Records(cs)[k]
  {
    CompleteAllLog(st, cs);
    var log := LoadLogs(CompleteAll(st, cs).logFile);
    var rev := Reverse(Records(cs));
    var j := |cs| - 1 - k;
    assert log[j] == (rev + LoadLogs(st.logFile))[j] == rev[j];
  }

  /** A non-empty batch grows the log by its size, capped, and what follows
      the new records is the head of the older log. */
  lemma CompleteAllShape(st: Store, cs: seq<Completion>)
    requires |cs| > 0
    ensures |LoadLogs(CompleteAll(st, cs).logFile)| == Min(LogCap, |cs| + |LoadLogs(st.logFile)|)
    ensures |cs| <= LogCap ==>
      LoadLogs(CompleteAll(st, cs).logFile)[|cs|..] == Take(LoadLogs(st.logFile), LogCap - |cs|)
  {
    CompleteAllLog(st, cs);
    var prior := LoadLogs(st.logFile);
    var log := LoadLogs(CompleteAll(st, cs).logFile);
    var all := Reverse(Records(cs)) + prior;
    assert log == Take(all, LogCap);
    if |cs| <= LogCap {
      forall j | 0 <= j < |log| - |cs|
        ensures log[|cs|..][j] == Take(prior, LogCap - |cs|)[j]
      {
        assert log[|cs| + j] == all[|cs| + j] == prior[j];
      }
    }
  }

  /** The names of the completed conversations. */
  function NameSet(cs: seq<Completion>): set<string>
  {
    set k | 0 <= k < |cs| :: cs[k].name
  }

  /** The position of the last completion of `name`, the one whose scan time
      the index keeps. */
  function LastNamed(cs: seq<Completion>, name: string): (r: Option<nat>)
    ensures r.Some? ==> r.value < |cs| && cs[r.value].name == name
    ensures r.Some? ==> forall j :: r.value < j < |cs| ==> cs[j].name != name
    ensures r.None? <==> forall j :: 0 <= j < |cs| ==> cs[j].name != name
    decreases |cs|
  {
    if |cs| == 0 then None
    else if cs[|cs| - 1].name == name then Some(|cs| - 1)
    else LastNamed(cs[..|cs| - 1], name)
  }

  lemma NameSetSnoc(cs: seq<Completion>)
    requires |cs| > 0
    ensures NameSet(cs) == NameSet(cs[..|cs| - 1]) + {cs[|cs| - 1].name}
  {
    assert forall k :: 0 <= k < |cs| - 1 ==> cs[..|cs| - 1][k] == cs[k];
  }

  /** After a batch of completions the index gained exactly the completed
      names as keys. */
  lemma {:induction false} CompleteAllIndexKeys(st: Store, cs: seq<Completion>)
    ensures LoadLastScans(CompleteAll(st, cs).scanFile).Keys == LoadLastScans(st.scanFile).Keys + NameSet(cs)
    decreases |cs|
  {
    if |cs| > 0 {
      CompleteAllIndexKeys(st, cs[..|cs| - 1]);
      NameSetSnoc(cs);
    }
  }

  /** After a batch of completions each completed name maps to the scan time
      of its last completion. */
  lemma {:induction false} CompleteAllIndexLast(st: Store, cs: seq<Completion>, n: string)
    requires LastNamed(cs, n).Some?
    ensures n in LoadLastScans(CompleteAll(st, cs).scanFile)
    ensures LoadLastScans(CompleteAll(st, cs).scanFile)[n] == cs[LastNamed(cs, n).value].scanTime
    decreases |cs|
  {
    var front := cs[..|cs| - 1];
    if cs[|cs| - 1].name != n {
      CompleteAllIndexLast(st, front, n);
    }
  }

  /** A batch of completions leaves the index entry of every name it does not
      complete as it was. */
  lemma {:induction false} CompleteAllIndexFrame(st: Store, cs: seq<Completion>, n: string)
    requires n in LoadLastScans(st.scanFile) && LastNamed(cs, n).None?
    ensures n in LoadLastScans(CompleteAll(st, cs).scanFile)
    ensures LoadLastScans(CompleteAll(st, cs).scanFile)[n] == LoadLastScans(st.scanFile)[n]
    decreases |cs|
  {
    if |cs| > 0 {
      CompleteAllIndexFrame(st, cs[..|cs| - 1], n);
    }
  }

  predicate IsScamCompletion(c: Completion)
  {
    c.result == ScamText
  }

  function CompletionName(c: Completion): string
  {
    c.name
  }

  /** The alerts a batch of completions raises are the names of the scam
      verdicts among them, in completion order; a classification failure in
      one conversation neither alerts nor stops the others. */
  lemma {:induction false} CompleteAllAlerts(st: Store, cs: seq<Completion>)
    ensures CompleteAll(st, cs).alerts == st.alerts + Selection.Map(Selection.Filter(cs, IsScamCompletion), CompletionName)
    decreases |cs|
  {
    if |cs| > 0 {
      var front := cs[..|cs| - 1];
      var last := cs[|cs| - 1];
      CompleteAllAlerts(st, front);
      Selection.FilterPrefixStep(cs, |cs| - 1, IsScamCompletion);
      assert cs[..|cs|] == cs;
      Selection.MapSnoc(Selection.Filter(front, IsScamCompletion), last, CompletionName);
    }
  }

  predicate IsDispatched(o: ChatOutcome)
  {
    o.Dispatched?
  }

  /** The analysis threads a scan started, in the order they were started. */
  function Started(outcomes: seq<ChatOutcome>): (tasks: seq<Task>)
    ensures |tasks| <= |outcomes|
  {
    var d := Selection.Filter(outcomes, IsDispatched);
    seq(|d|, k requires 0 <= k < |d| => d[k].task)
  }

  /** A task is among the started ones exactly when some call dispatched it. */
  lemma StartedIff(outcomes: seq<ChatOutcome>, t: Task)
    ensures t in Started(outcomes) <==> Dispatched(t) in outcomes
  {
    var d := Selection.Filter(outcomes, IsDispatched);
    var ix := Selection.Indices(outcomes, IsDispatched);
    Selection.FilterSelects(outcomes, IsDispatched);
    if t in Started(outcomes) {
      var k :| 0 <= k < |d| && Started(outcomes)[k] == t;
      assert outcomes[ix[k]] == d[k] == Dispatched(t);
    }
    if Dispatched(t) in outcomes {
      var i :| 0 <= i < |outcomes| && outcomes[i] == Dispatched(t);
      Selection.IndicesComplete(outcomes, IsDispatched, i);
      var k :| 0 <= k < |ix| && ix[k] == i;
      assert Started(outcomes)[k] == t;
    }
  }

  /** `order` lists each of `n` started threads exactly once, in the order the
      threads finished. */
  predicate IsFinishingOrder(order: seq<nat>, n: nat)
  {
    && |order| == n
    && (forall k :: 0 <= k < n ==> order[k] < n)
    && (forall j, k :: 0 <= j < k < n ==> order[j] != order[k])
    && (forall i :: 0 <= i < n ==> i in order)
  }

  /** The started tasks in the order their threads finished. */
  function Finished(tasks: seq<Task>, order: seq<nat>): (done: seq<Task>)
    requires forall k :: 0 <= k < |order| ==> order[k] < |tasks|
    ensures |done| == |order|
    ensures forall k :: 0 <= k < |order| ==> done[k] == tasks[order[k]]
  {
    seq(|order|, k requires 0 <= k < |order| => tasks[order[k]])
  }

  /** What the threads of `done` deliver to `handle_analysis_result`, in that
      order: each thread's name and label through `RunTask`, with completion
      `k` reading its two clock values from `scanClock(k)` and `logClock(k)`. */
  function Deliver(done: seq<Task>, infer: string -> Inference,
                   scanClock: nat -> Timestamp, logClock: nat -> Timestamp): (cs: seq<Completion>)
    ensures |cs| == |done|
    ensures forall k :: 0 <= k < |done| ==>
      cs[k] == Completion(RunTask(done[k], infer).0, RunTask(done[k], infer).1, scanClock(k), logClock(k))
  {
    seq(|done|, k requires 0 <= k < |done| =>
      var r := RunTask(done[k], infer);
      Completion(r.0, r.1, scanClock(k), logClock(k)))
  }

  /** The completions of a scan whose started threads finish in `order`. */
  function FinishScan(outcomes: seq<ChatOutcome>, order: seq<nat>, infer: string -> Inference,
                      scanClock: nat -> Timestamp, logClock: nat -> Timestamp): (cs: seq<Completion>)
    requires forall k :: 0 <= k < |order| ==> order[k] < |Started(outcomes)|
    ensures |cs| == |order|
  {
    Deliver(Finished(Started(outcomes), order), infer, scanClock, logClock)
  }

  /** The verdict string on a task's joined texts. */
  function Verdict(t: Task, infer: string -> Inference): string
  {
    LabelText(Predict(infer(Join(t.texts))))
  }

  lemma DeliverRecordAt(done: seq<Task>, infer: string -> Inference,
                        scanClock: nat -> Timestamp, logClock: nat -> Timestamp, k: nat)
    requires k < |done|
    ensures Records(Deliver(done, infer, scanClock, logClock))[k] == ScanRecord(done[k].name, Verdict(done[k], infer), logClock(k))
  {
  }

  /** The thread finished `k`-th leaves its task's record `k` places behind
      the newest, while the cap lets it stay. */
  lemma FinishedRecordAt(st: Store, tasks: seq<Task>, order: seq<nat>, infer: string -> Inference,
                         scanClock: nat -> Timestamp, logClock: nat -> Timestamp, k: nat)
    requires forall j :: 0 <= j < |order| ==> order[j] < |tasks|
    requires k < |order| && |order| - 1 - k < LogCap
    ensures var log := LoadLogs(CompleteAll(st, Deliver(Finished(tasks, order), infer, scanClock, logClock)).logFile);
      && |order| - 1 - k < |log|
      && log[|order| - 1 - k] == ScanRecord(tasks[order[k]].name, Verdict(tasks[order[k]], infer), logClock(k))
  {
    var done := Finished(tasks, order);
    DeliverRecordAt(done, infer, scanClock, logClock, k);
    CompleteAllRecordAt(st, Deliver(done, infer, scanClock, logClock), k);
  }

  /** Whatever order the started threads finish in, and whatever the
      classifier does on each (a raised exception included), the thread
      finished `k`-th leaves its task's verdict `k` places behind the head of
      the log, while the cap lets it stay. */
  lemma FullScanRecordAt(st: Store, outcomes: seq<ChatOutcome>, order: seq<nat>, infer: string -> Inference,
                         scanClock: nat -> Timestamp, logClock: nat -> Timestamp, k: nat)
    requires IsFinishingOrder(order, |Started(outcomes)|)
    requires k < |order| && |order| - 1 - k < LogCap
    ensures var tasks := Started(outcomes);
      var log := LoadLogs(CompleteAll(st, FinishScan(outcomes, order, infer, scanClock, logClock)).logFile);
      && |order| - 1 - k < |log|
      && log[|order| - 1 - k] == ScanRecord(tasks[order[k]].name, Verdict(tasks[order[k]], infer), logClock(k))
  {
    var tasks := Started(outcomes);
    assert FinishScan(outcomes, order, infer, scanClock, logClock) == Deliver(Finished(tasks, order), infer, scanClock, logClock);
    FinishedRecordAt(st, tasks, order, infer, scanClock, logClock, k);
  }

  /** A full scan grows the log by one record per started thread, capped, and
      the older records follow the new ones. */
  lemma FullScanLogShape(st: Store, outcomes: seq<ChatOutcome>, order: seq<nat>, infer: string -> Inference,
                         scanClock: nat -> Timestamp, logClock: nat -> Timestamp)
    requires IsFinishingOrder(order, |Started(outcomes)|)
    ensures var n := |Started(outcomes)|;
      var log := LoadLogs(CompleteAll(st, FinishScan(outcomes, order, infer, scanClock, logClock)).logFile);
      && (n == 0 ==> log == LoadLogs(st.logFile))
      && (n > 0 ==> |log| == Min(LogCap, n + |LoadLogs(st.logFile)|))
      && (0 < n <= LogCap ==> n <= |log| && log[n..] == Take(LoadLogs(st.logFile), LogCap - n))
  {
    var cs := FinishScan(outcomes, order, infer, scanClock, logClock);
    assert |cs| == |Started(outcomes)|;
    if |cs| == 0 {
      assert CompleteAll(st, cs) == st;
    } else {
      CompleteAllShape(st, cs);
    }
  }

  /** When the log cap lets all of a scan's records stay, every started task
      has its verdict in the log among the new records, in whatever order the
      threads finished. */
  lemma EveryStartedTaskRecorded(st: Store, outcomes: seq<ChatOutcome>, order: seq<nat>,
                                 infer: string -> Inference,
                                 scanClock: nat -> Timestamp, logClock: nat -> Timestamp, i: nat)
    requires IsFinishingOrder(order, |Started(outcomes)|) && |Started(outcomes)| <= LogCap
    requires i < |Started(outcomes)|
    ensures var tasks := Started(outcomes);
      var log := LoadLogs(CompleteAll(st, FinishScan(outcomes, order, infer, scanClock, logClock)).logFile);
      exists j :: 0 <= j < |tasks| && j < |log| && log[j].user == tasks[i].name && log[j].result == Verdict(tasks[i], infer)
  {
    assert i in order;
    var k :| 0 <= k < |order| && order[k] == i;
    FullScanRecordAt(st, outcomes, order, infer, scanClock, logClock, k);
  }

  /** A thread whose classification raised still leaves its record, with the
      exception's message after the error prefix. */
  lemma RaisedInferenceStillRecorded(st: Store, outcomes: seq<ChatOutcome>, order: seq<nat>,
                                     infer: string -> Inference,
                                     scanClock: nat -> Timestamp, logClock: nat -> Timestamp, failed: nat)
    requires IsFinishingOrder(order, |Started(outcomes)|) && |Started(outcomes)| <= LogCap
    requires failed < |Started(outcomes)| && infer(Join(Started(outcomes)[failed].texts)).Raised?
    ensures var tasks := Started(outcomes);
      var log := LoadLogs(CompleteAll(st, FinishScan(outcomes, order, infer, scanClock, logClock)).logFile);
      exists j :: 0 <= j < |tasks| && j < |log| && log[j].user == tasks[failed].name
        && log[j].result == ErrorPrefix + infer(Join(tasks[failed].texts)).error
  {
    EveryStartedTaskRecorded(st, outcomes, order, infer, scanClock, logClock, failed);
  }

  /** The task predicate "the classifier predicts class 1 on its joined texts". */
  function PredictsScam(infer: string -> Inference): Task -> bool
  {
    (t: Task) => infer(Join(t.texts)) == Predicted(1)
  }

  function TaskName(t: Task): string
  {
    t.name
  }

  /** The alerts a full scan's threads raise are the names of the started
      tasks on which the classifier predicted class 1, in the order the
      threads finished. */
  lemma FullScanAlerts(st: Store, outcomes: seq<ChatOutcome>, order: seq<nat>, infer: string -> Inference,
                       scanClock: nat -> Timestamp, logClock: nat -> Timestamp)
    requires forall k :: 0 <= k < |order| ==> order[k] < |Started(outcomes)|
    ensures CompleteAll(st, FinishScan(outcomes, order, infer, scanClock, logClock)).alerts ==
      st.alerts + Selection.Map(Selection.Filter(Finished(Started(outcomes), order), PredictsScam(infer)), TaskName)
  {
    var done := Finished(Started(outcomes), order);
    var cs := Deliver(done, infer, scanClock, logClock);
    CompleteAllAlerts(st, cs);
    Selection.MapFilterAgree(cs, done, IsScamCompletion, PredictsScam(infer), CompletionName, TaskName);
  }

  /** `logout` as written removes the session file, the log and the index in
      one `try` block, so the first missing file stops the removals. */
  function LogoutAsWritten(sessionFilePresent: bool, st: Store): (st': Store)
    ensures st'.alerts == st.alerts
    ensures !sessionFilePresent ==> st'.logFile == st.logFile && st'.scanFile == st.scanFile
    ensures sessionFilePresent && st.logFile.Some? ==> st'.logFile.None? && st'.scanFile.None?
    ensures sessionFilePresent && st.logFile.None? ==> st'.scanFile == st.scanFile
  {
    if !sessionFilePresent then st
    else if st.logFile.None? then st
    else st.(logFile := None, scanFile := None)
  }

  /** When the session file is already gone, the scan history outlives the
      logout that was meant to erase it. */
  lemma LogoutAsWrittenKeepsHistory(st: Store)
    requires LoadLogs(st.logFile) != [] && LoadLastScans(st.scanFile) != map[]
    ensures LoadLogs(LogoutAsWritten(false, st).logFile) == LoadLogs(st.logFile)
    ensures LoadLastScans(LogoutAsWritten(false, st).scanFile) == LoadLastScans(st.scanFile)
  {
  }

  /** `logout` with each file removed independently: afterwards both stores
      read as empty, whichever files existed before. */
  function Logout(st: Store): (st': Store)
    ensures st'.alerts == st.alerts
    ensures LoadLogs(st'.logFile) == [] && LoadLastScans(st'.scanFile) == map[]
    ensures forall c :: LoadLogs(HandleResult(st', c).logFile) == [ScanRecord(c.name, c.result, c.logTime)]
  {
    st.(logFile := None, scanFile := None)
  }
}
