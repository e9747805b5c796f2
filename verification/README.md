# Scan-result pipeline of the 2Racker romance-scam detector

The detector is a tray application. It reads a Telegram account's one-on-one
conversations, classifies the newest messages of each conversation with a
fine-tuned text classifier, and raises a tray alert for a conversation judged
to be a romance scam. This project is a Dafny model of the sequential logic
behind that: the pipeline from a conversation to a stored verdict.

- **Result store** (`ResultStore`). The scan log `scan_log.json` is a
  newest-first list of `{user, result, time}` records, cut to 100 whenever it
  is written. The last-scan index `last_scan.json` maps a conversation name to
  the time it was last scanned. A file is an `Option`, and an absent file
  reads as an empty log or an empty index.
- **Text aggregation** (`TextAggregator`, `Selection`). `analyze_chat` fetches
  at most the ten newest messages. It keeps those whose text is non-empty and
  strips each one with Python's `str.strip()` whitespace set. The analysis
  thread joins the kept texts with `" [SEP] "`.
- **Labels** (`Labels`). `predict_romance_scam` maps class 1 to the scam label
  and every other class to the normal label. A raised exception becomes an
  error string. The classifier's forward pass is a parameter, modelled as a
  function from the joined text to a predicted class or an exception message.
- **Coordination** (`ScanCoordinator`).
  - `analyze_chat` starts an analysis for the first conversation with the
    requested name.
  - `handle_analysis_result` updates the index, prepends a log record, and
    alerts exactly when the label string is the scam label.
  - `run_full_scan` calls `analyze_chat` once for each one-on-one
    conversation, in list order, and counts progress over those
    conversations only.
  - The `logout` reset of both files is modelled as well.
- **Schedule** (`Schedule`). `update_interval` restarts the scan timer with a
  period of `minutes * 60 * 1000` milliseconds.

The conversation list is an input. It is a `Result`, because listing may
raise. The tray alerts raised so far are a sequence of conversation names.
Timestamps are opaque strings, passed in as parameters.

In three places the code behaves differently from what its purpose suggests.
The model follows the code in each:

- The window of ten messages is taken before messages without text are
  filtered out, not after. Ten newest messages without text therefore hide
  an older message that has text. `ScanScenarios.WindowComesBeforeFilter`
  exhibits this.
- A whitespace-only text passes the truthiness filter and becomes `""` after
  stripping. A conversation whose only text is whitespace is still
  classified, on an empty input. `ScanScenarios.WhitespaceOnlyTextIsClassified`
  exhibits this.
- `analyze_chat` lists the conversations again and looks the name up, so
  names are the only identity of a conversation. When two conversations
  share a display name, the full scan analyses the first of them for both.
  `ScanCoordinator.SharedNameAnalysesFirst` states this.

## Model

| member | source | states |
|---|---|---|
| Labels.Predict | main.py:49-60 | class 1 gives the scam verdict and only class 1 does; any other class gives the normal verdict; an exception, and only an exception, gives an error verdict carrying its message |
| Labels.ScamTextIdentifiesScam | main.py:57-60 | the emitted string equals the scam label exactly for the scam verdict, never for the normal label or for any error string, whatever the exception message |
| Labels.LabelTextInjective | main.py:57-60 | distinct verdicts are emitted as distinct strings, so a stored result determines the verdict |
| ResultStore.LoadLogs | main.py:68-72 | an absent log file reads as the empty log, not as an error; a present one reads as its records |
| ResultStore.SaveLog | main.py:62-66 | the file exists afterwards; the new record is at the head; the length is the old length plus one, capped at 100; the rest is the old log's first 99 records in their order |
| ResultStore.SaveAllNewestFirst | main.py:62-66 | after saving one or more records in turn, the log is those records in reverse save order ahead of the earlier log, cut to 100 |
| ResultStore.SaveAllKeepsLastHundred | main.py:64-66 | after at least 100 saves, the log is exactly the last 100 saved records, most recent first |
| ResultStore.LoadLastScans | main.py:80-84 | an absent index file reads as the empty map, not as an error; a present one reads as its map |
| ResultStore.SaveLastScan | main.py:74-78 | the file exists afterwards; `name` maps to the new time; the keys are the old keys plus `name`; every other key keeps its value |
| ResultStore.SaveLastScanOverwrites | main.py:74-78 | recording a name twice leaves only the second time |
| ResultStore.SaveLastScanCommutes | main.py:74-78 | recording two different names gives the same index in either order |
| TextAggregator.StripTrims | main.py:414 | the stripped text is a slice of the text with only whitespace cut from both ends, and it neither starts nor ends with whitespace |
| TextAggregator.StripEmptyIff | main.py:414 | stripping leaves the empty string exactly when the text is all whitespace |
| TextAggregator.StripKeepsUnpadded | main.py:414 | a text that neither starts nor ends with whitespace is unchanged by stripping |
| TextAggregator.StripIdempotent | main.py:414 | stripping a stripped text changes nothing |
| TextAggregator.FetchWindow | main.py:413 | the fetched messages are the newest ones of the history, ten of them or the whole history when it is shorter |
| TextAggregator.TextsSnoc | main.py:414 | one more fetched message adds its stripped text at the end exactly when its text is non-empty |
| TextAggregator.TextsSelect | main.py:414 | text `k` is the stripped text of the `k`-th fetched message with non-empty text, and there are exactly as many texts as such messages |
| Selection.IndicesComplete | main.py:414 | every message whose text is non-empty is among the kept positions, so none is skipped |
| TextAggregator.TextsEmptyIff | main.py:414-416 | no text is collected exactly when none of the fetched messages has non-empty text |
| TextAggregator.JoinLength | main.py:38 | the joined input is as long as the texts together plus one separator between each neighbouring pair |
| TextAggregator.JoinContains | main.py:38 | each text appears in the joined input, in order, at the offset after the texts before it and their separators, preceded by a separator unless it is the first |
| ScanCoordinator.AnalyzeChat | main.py:407-424 | the outcome is an error exactly when listing the conversations, or fetching the named one's messages, raised; it is "no conversation" exactly when none has the name; an analysis carries the name and one to ten texts, namely the collected texts of the first conversation with the name |
| ScanCoordinator.AnalyzeChatDispatchesIff | main.py:410-416 | an analysis starts exactly when a conversation has the name, its messages could be fetched, and one of the fetched messages has non-empty text |
| ScanCoordinator.RunTask | main.py:37-40 | the thread emits the conversation name; the label is the scam label exactly when the classifier predicts class 1 on the joined texts and the normal label exactly when it predicts another class; an exception gives the error prefix and its message |
| ScanCoordinator.HandleResult | main.py:426-433 | exactly one record for the name and label goes to the head of the log, capped at 100; the name's index entry becomes the scan time and no other entry changes; one alert for the name is added exactly when the label is the scam label |
| ScanCoordinator.AlertIffPredictedScam | main.py:37-40 | a finished analysis raises an alert exactly when the classifier predicted class 1; a normal verdict or a classifier exception never alerts |
| ScanCoordinator.ScanOne | main.py:407-433 | when no analysis is started (no such name, no text, a fetch failure) nothing is stored and nothing alerts; otherwise the log gains at its head the record of the name, the label string of the classifier's outcome on the joined texts and the log time, followed by the older log's first 99 records; the index is the old index with only the name set to the scan time; the name is appended to the alerts exactly when the classifier predicted class 1 |
| ScanCoordinator.AnalyzeUsers | main.py:446-450 | the loop calls the per-conversation analysis once for each one-on-one conversation, in list order, and for no other; progress counts those calls |
| ScanCoordinator.RunFullScan | main.py:438-456 | the scan aborts exactly when listing fails; otherwise the progress maximum is the number of one-on-one conversations, the final progress equals it, and each of them gets one analysis in list order |
| ScanCoordinator.SharedNameAnalysesFirst | main.py:410 | when two conversations share a name, the lookup for the later one finds a conversation no later than the earlier one |
| ScanCoordinator.CompleteAllLog | main.py:426-429 | after a batch of finished analyses, the log is their records with the last finished first, ahead of the older records, cut to 100 |
| ScanCoordinator.CompleteAllRecordAt | main.py:426-429 | the record of the analysis finished `k`-th among a batch sits `k` places behind the newest, while the cap of 100 lets it stay |
| ScanCoordinator.CompleteAllShape | main.py:426-429 | a batch grows the log by its size, capped at 100, and when the batch fits, the head of the older log follows its records |
| ScanCoordinator.CompleteAllIndexKeys | main.py:426-427 | after a batch, the index keys are the old keys plus the analysed names, and no other key |
| ScanCoordinator.CompleteAllIndexLast | main.py:426-427 | after a batch, each analysed name maps to the scan time of its last completion in the batch |
| ScanCoordinator.CompleteAllIndexFrame | main.py:426-427 | a batch leaves the index entry of every name it does not analyse unchanged |
| ScanCoordinator.CompleteAllAlerts | main.py:432-433 | the alerts a batch raises are the names of its scam verdicts, in finishing order; errors and normal verdicts raise none |
| ScanCoordinator.StartedIff | main.py:418-421 | a task is among the threads a scan started exactly when one of its `analyze_chat` calls dispatched it |
| ScanCoordinator.FullScanRecordAt | main.py:37-40 | whatever order the started threads finish in, and whatever the classifier does on each, the thread finished `k`-th leaves the record of its task's name and verdict string `k` places behind the head of the log, while the cap lets it stay |
| ScanCoordinator.FullScanLogShape | main.py:426-429 | a full scan with no started thread leaves the log as it was; otherwise the log grows by one record per started thread, capped at 100, and the older records follow the new ones |
| ScanCoordinator.EveryStartedTaskRecorded | main.py:418-429 | when at most 100 threads were started, every started task has a record with its name and verdict among the new records, in whatever order the threads finished |
| ScanCoordinator.RaisedInferenceStillRecorded | main.py:59-60 | a thread whose classification raised still leaves a record, whose result is the error prefix and the exception's message |
| ScanCoordinator.FullScanAlerts | main.py:432-433 | the alerts a full scan's threads raise are the names of the started tasks on which the classifier predicted class 1, in the order the threads finished |
| ScanCoordinator.LogoutAsWritten | main.py:531-536 | the removals run in one `try`: with the session file gone, neither the log nor the index is removed; with the log gone, the index is not removed |
| ScanCoordinator.LogoutAsWrittenKeepsHistory | main.py:531-536 | a logout that finds no session file leaves the whole scan history readable |
| ScanCoordinator.Logout | main.py:531-536 | with each removal independent, both stores read as empty afterwards, and the next result starts a fresh log |
| Schedule.PeriodMillis | main.py:539-542 | the timer period for an interval of at least one minute is a whole, positive number of minutes, namely the interval |
| Schedule.InitialTimer | main.py:174-195 | the timer starts running with the five-minute interval |
| Schedule.UpdateInterval | main.py:539-542 | the timer runs afterwards, with the new interval and that interval's period |
| Schedule.UpdateIntervalForgets | main.py:539-542 | the restarted timer depends only on the new interval: the previous timer leaves no trace, and of two updates the last one counts |
| Schedule.UpdateToDefaultRestoresInitial | main.py:174-195 | setting the five-minute interval gives back the timer as first started |
| AggregationScenarios.KeepsOuterOfThree | main.py:414 | of three messages where only the middle one has no text, the stripped texts of the outer two are collected, in order |
| AggregationScenarios.EmptyTextIsDropped | main.py:413-414 | an empty text among `hi` and `send money please` is dropped and the other two are kept in order |
| AggregationScenarios.EmptyTextIsNotJoined | main.py:38 | the classifier input for that conversation is the two texts around a single separator |
| ScanScenarios.WhitespaceOnlyTextIsClassified | main.py:413-416 | a whitespace-only message starts an analysis whose only text is the empty string, and its joined input is empty |
| ScanScenarios.WindowComesBeforeFilter | main.py:413-416 | ten newest messages without text hide an older message with text, and no analysis starts |

## Left out

- The user interface: widgets, tabs, style sheets, the privacy notice, the
  status label texts, `refresh_logs` and the chat-list tooltips, which only
  display the two stores, and the tray icon drawing.
- Telegram: the client, connection, login and code exchange, and
  `update_account_info`. The conversation list and each conversation's
  messages are inputs. A failure to fetch them is the `Err` case of a
  `Result`.
- The classifier's tokenizer and forward pass, softmax and argmax. These are
  floating point in a foreign library, so the model takes the outcome (a class
  index or an exception message) from a function parameter.
- Threads and signals. A started analysis is a `Task` value. The order in
  which the threads finish is a parameter: a sequence that lists each started
  task exactly once (`IsFinishingOrder`). `FinishScan` turns it into the
  `Completion` sequence given to `CompleteAll`. The two clock readings of
  each completion are parameters indexed by finishing position.
- The timer firing itself and the call from the timer to `run_full_scan`.
- JSON encoding and decoding, file writes, and `datetime.now()` formatting. A
  file holds its decoded value, and timestamps are parameters. A file that
  exists but does not decode raises inside `load_logs` or `load_last_scans`.
  That case is not modelled.
- ScanCoordinator.RunFullScan: `analyze_chat` lists the conversations again
  for each call. The model uses one listing for the whole scan, so a list
  that changes during a scan is not modelled.
- Schedule.UpdateInterval: the spin box also caps the interval at 99 minutes,
  Qt's default maximum. The model only requires at least one minute, which
  admits every value the spin box can produce. The 32-bit limit of the
  timer's millisecond argument is never reached below that cap and is not
  modelled.
- `logout`'s calls to the client (`log_out`, `disconnect`) and the final
  application quit. Whether the session file exists when the removals run is
  a parameter of `LogoutAsWritten`.

## Findings

| source | as written | input that shows it | evidently intended | confidence | as-written member | corrected member |
|---|---|---|---|---|---|---|
| main.py:531-536 | `logout` removes the session file, then `scan_log.json`, then `last_scan.json`, inside one `try`; the first removal that raises skips the rest | a logout after `client.log_out()` has already deleted `scamdetect_session.session` (Telethon's log-out deletes its session file), with a non-empty log and index: the first removal raises, and both files survive | "logout and quit" erases the scan history whichever files exist: each removal is attempted on its own | not executed | ScanCoordinator.LogoutAsWritten (counterexample: ScanCoordinator.LogoutAsWrittenKeepsHistory) | ScanCoordinator.Logout |
