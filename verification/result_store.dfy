/** The two flat files of the scan pipeline: the capped, newest-first scan log
    (`scan_log.json`) and the last-scan index (`last_scan.json`). A file is an
    `Option`: `None` when it does not exist. JSON encoding is not modelled; a
    present file holds the decoded value. */
module ResultStore {
  import opened Wrappers

  /** A formatted wall-clock time, kept opaque. */
  type Timestamp = string

  /** One entry of the scan log: `{user, result, time}`. */
  datatype ScanRecord = ScanRecord(user: string, result: string, time: Timestamp)

  /** The most records the log file keeps. */
  const LogCap: nat := 100

  type LogFile = Option<seq<ScanRecord>>
  type Index = map<string, Timestamp>
  type IndexFile = Option<Index>

  function Min(a: nat, b: nat): nat { if a <= b then a else b }

  /** The first `n` elements of `s`, or all of it when it is shorter (Python's
      `s[:n]`). */
  function Take<T>(s: seq<T>, n: nat): (r: seq<T>)
    ensures |r| == Min(n, |s|)
    ensures forall i :: 0 <= i < |r| ==> r[i] == s[i]
  {
    s[..Min(n, |s|)]
  }

  /** `s` back to front. */
  function Reverse<T>(s: seq<T>): (r: seq<T>)
    ensures |r| == |s|
    ensures forall i :: 0 <= i < |s| ==> r[i] == s[|s| - 1 - i]
  {
    seq(|s|, i requires 0 <= i < |s| => s[|s| - 1 - i])
  }

  /** `load_logs`: the stored records, or none at all when the file is absent. */
  function LoadLogs(f: LogFile): (logs: seq<ScanRecord>)
    ensures f.None? ==> logs == []
    ensures f.Some? ==> logs == f.value
  {
    f.GetOr([])
  }

  /** `save_log`: the new record goes to the head of the loaded log and the
      file is rewritten with at most `LogCap` records. */
  function SaveLog(f: LogFile, r: ScanRecord): (f': LogFile)
    ensures f'.Some?
    ensures |LoadLogs(f')| == Min(LogCap, |LoadLogs(f)| + 1)
    ensures LoadLogs(f')[0] == r
    ensures LoadLogs(f')[1..] == Take(LoadLogs(f), LogCap - 1)
  {
    Some(Take([r] + LoadLogs(f), LogCap))
  }

  /** Saving `rs` one after the other, first to last. */
  function SaveAll(f: LogFile, rs: seq<ScanRecord>): LogFile
    decreases |rs|
  {
    if |rs| == 0 then f else SaveLog(SaveAll(f, rs[..|rs| - 1]), rs[|rs| - 1])
  }

  /** Cutting a sequence and then putting one element in front, then cutting
      again, gives the same as cutting once after the element went in front. */
  lemma TakeConsTake<T>(x: T, s: seq<T>, n: nat)
    requires n >= 1
    ensures Take([x] + Take(s, n), n) == Take([x] + s, n)
  {
  }

  /** After one or more saves the log holds the saved records newest first,
      then the records that were already there, cut to `LogCap`. */
  lemma {:induction false} SaveAllNewestFirst(f: LogFile, rs: seq<ScanRecord>)
    requires |rs| > 0
    ensures LoadLogs(SaveAll(f, rs)) == Take(Reverse(rs) + LoadLogs(f), LogCap)
    decreases |rs|
  {
    var front := rs[..|rs| - 1];
    var last := rs[|rs| - 1];
    assert Reverse(rs) == [last] + Reverse(front);
    if |front| == 0 {
      assert Reverse(front) == [];
    } else {
      SaveAllNewestFirst(f, front);
      TakeConsTake(last, Reverse(front) + LoadLogs(f), LogCap);
      assert [last] + (Reverse(front) + LoadLogs(f)) == Reverse(rs) + LoadLogs(f);
    }
  }

  /** Once at least `LogCap` records have been saved, the log is exactly the
      last `LogCap` of them, most recent first; nothing older survives. */
  lemma {:induction false} SaveAllKeepsLastHundred(f: LogFile, rs: seq<ScanRecord>)
    requires |rs| >= LogCap
    ensures LoadLogs(SaveAll(f, rs)) == Reverse(rs[|rs| - LogCap..])
  {
    SaveAllNewestFirst(f, rs);
    var tail := rs[|rs| - LogCap..];
    assert Take(Reverse(rs) + LoadLogs(f), LogCap) == Reverse(tail);
  }

  /** `load_last_scans`: the stored index, or the empty map when the file is
      absent. */
  function LoadLastScans(f: IndexFile): (idx: Index)
    ensures f.None? ==> idx == map[]
    ensures f.Some? ==> idx == f.value
  {
    f.GetOr(map[])
  }

  /** `save_last_scan`: the loaded index with the entry for `name` set to `now`,
      written back. No other key is added, removed or changed. */
  function SaveLastScan(f: IndexFile, name: string, now: Timestamp): (f': IndexFile)
    ensures f'.Some?
    ensures name in LoadLastScans(f') && LoadLastScans(f')[name] == now
    ensures LoadLastScans(f').Keys == LoadLastScans(f).Keys + {name}
    ensures forall k :: k in LoadLastScans(f) && k != name ==> LoadLastScans(f')[k] == LoadLastScans(f)[k]
  {
    Some(LoadLastScans(f)[name := now])
  }

  /** Only the most recent time recorded for a name is kept. */
  lemma SaveLastScanOverwrites(f: IndexFile, name: string, t1: Timestamp, t2: Timestamp)
    ensures SaveLastScan(SaveLastScan(f, name, t1), name, t2) == SaveLastScan(f, name, t2)
  {
    var m := LoadLastScans(f);
    assert m[name := t1][name := t2] == m[name := t2];
  }

  /** Recording two different names gives the same index in either order. */
  lemma SaveLastScanCommutes(f: IndexFile, a: string, ta: Timestamp, b: string, tb: Timestamp)
    requires a != b
    ensures SaveLastScan(SaveLastScan(f, a, ta), b, tb) == SaveLastScan(SaveLastScan(f, b, tb), a, ta)
  {
    var m := LoadLastScans(f);
    assert m[a := ta][b := tb] == m[b := tb][a := ta];
  }
}
