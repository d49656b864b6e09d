/**
 * What a session's trace does to the two files it writes: `cleanspool.safe`
 * and `cleanspool.log`. A file is its lines, or None when it does not exist;
 * appending to a missing file creates it, and `dedupe_file` leaves a missing
 * file missing.
 */
module Replay {
  import opened Wrappers
  import opened Text
  import opened Persist
  import opened Session

  datatype Files = Files(safe: Option<seq<string>>, log: Option<seq<string>>)

  /** Every line of the file ends with a line break (a missing file trivially does). */
  predicate Terminated(file: Option<seq<string>>) {
    file.Some? ==> forall i :: 0 <= i < |file.value| ==> EndsWith(file.value[i], "\n")
  }

  /**
   * Open with mode "a" and write `text`: it continues the last line when
   * that line has no line break yet, and starts a new line otherwise.
   */
  function AppendText(file: Option<seq<string>>, text: string): (r: Option<seq<string>>)
    ensures r.Some?
    ensures Terminated(file) ==> r.value == file.GetOr([]) + [text]
    ensures Terminated(file) && EndsWith(text, "\n") ==> Terminated(r)
  {
    var lines := file.GetOr([]);
    var n := |lines|;
    if n > 0 && !EndsWith(lines[n - 1], "\n") then Some(lines[..n - 1] + [lines[n - 1] + text])
    else Some(lines + [text])
  }

  /** `dedupe_file`: nothing happens when the file does not exist. */
  function DedupeStore(file: Option<seq<string>>): (r: Option<seq<string>>)
    ensures r.None? <==> file.None?
    ensures file.Some? ==> r.value == DedupeFile(file.value)
    ensures Terminated(r)
  {
    match file
    case None => None
    case Some(lines) => Some(DedupeFile(lines))
  }

  /** One effect applied to the files; `stamp` is what `time.ctime()` returned. */
  function Apply(files: Files, e: Effect, stamp: string): (r: Files)
    ensures !(e.SaveSafe? || (e.Dedupe? && e.store == SafeStore)) ==> r.safe == files.safe
    ensures !(e.Log? || (e.Dedupe? && e.store == LogStore)) ==> r.log == files.log
  {
    match e
    case SaveSafe(id) => files.(safe := AppendText(files.safe, SafeLine(id)))
    case Log(id, path) => files.(log := AppendText(files.log, LogLine(stamp, id, path)))
    case Dedupe(SafeStore) => files.(safe := DedupeStore(files.safe))
    case Dedupe(LogStore) => files.(log := DedupeStore(files.log))
    case _ => files
  }

  /** The files after the whole trace; `clock(k)` is the time at the `k`-th effect. */
  function Persisted(files: Files, trace: seq<Effect>, clock: nat -> string): Files
    decreases |trace|
  {
    if |trace| == 0 then files
    else
      var k := |trace| - 1;
      Apply(Persisted(files, trace[..k], clock), trace[k], clock(k))
  }

  /** A trace that never saves and never compacts the safe file leaves it as it was; likewise the log. */
  lemma {:induction false} PersistedUntouched(files: Files, trace: seq<Effect>, clock: nat -> string)
    ensures (forall e :: e in trace ==> !e.SaveSafe? && e != Dedupe(SafeStore)) ==> Persisted(files, trace, clock).safe == files.safe
    ensures (forall e :: e in trace ==> !e.Log? && e != Dedupe(LogStore)) ==> Persisted(files, trace, clock).log == files.log
  {
    if |trace| > 0 {
      var k := |trace| - 1;
      assert forall e :: e in trace[..k] ==> e in trace;
      assert trace[k] in trace;
      PersistedUntouched(files, trace[..k], clock);
    }
  }

  /** A file `dedupe_file` would leave as it is. */
  predicate Compacted(file: Option<seq<string>>) {
    file.Some? ==> DedupeFile(file.value) == file.value
  }

  /** The `<...>` identifiers saved by the trace. */
  function SavedIds(trace: seq<Effect>): (ids: set<string>)
    ensures forall x :: x in ids <==> SaveSafe(x) in trace && IsAngle(x)
  {
    set e | e in trace && e.SaveSafe? && IsAngle(e.id) :: e.id
  }

  /**
   * Whatever the trace did before, a trace that ends with the clean-up of
   * `run_interactive` leaves both files sorted and free of duplicates.
   */
  lemma CleanupCompacts(files: Files, trace: seq<Effect>, clock: nat -> string)
    requires |trace| >= 3 && trace[|trace| - 3..] == InteractiveCleanup
    ensures Compacted(Persisted(files, trace, clock).safe)
    ensures Compacted(Persisted(files, trace, clock).log)
  {
    var n := |trace|;
    assert trace[n - 1] == Dedupe(LogStore) && trace[n - 2] == Dedupe(SafeStore);
    assert trace[..n - 1][..n - 2] == trace[..n - 2];
    var before := Persisted(files, trace[..n - 2], clock);
    var mid := Persisted(files, trace[..n - 1], clock);
    assert mid == Apply(before, Dedupe(SafeStore), clock(n - 2));
    if mid.safe.Some? {
      DedupeFileIdempotent(before.safe.value);
    }
    var last := Persisted(files, trace, clock);
    assert last == Apply(mid, Dedupe(LogStore), clock(n - 1));
    if last.log.Some? {
      DedupeFileIdempotent(mid.log.value);
    }
  }

  /** Every interactive session, however it ends, leaves both files compacted. */
  lemma SessionLeavesFilesCompacted(cfg: Config, keywordArg: Option<string>, keywordFile: Option<seq<string>>,
                                    files: Files, arts: seq<Article>, inputs: seq<string>, clock: nat -> string)
    ensures var run := RunInteractive(cfg, keywordArg, keywordFile, files.safe, arts, inputs);
            Compacted(Persisted(files, run.trace, clock).safe) && Compacted(Persisted(files, run.trace, clock).log)
  {
    var run := RunInteractive(cfg, keywordArg, keywordFile, files.safe, arts, inputs);
    CleanupCompacts(files, run.trace, clock);
  }

  /** The `<...>` identifier an effect saves, if any. */
  function SavedBy(e: Effect): set<string> {
    if e.SaveSafe? && IsAngle(e.id) then {e.id} else {}
  }

  lemma SavedIdsLast(trace: seq<Effect>)
    requires |trace| > 0
    ensures SavedIds(trace) == SavedIds(trace[..|trace| - 1]) + SavedBy(trace[|trace| - 1])
  {
    var k := |trace| - 1;
    forall x
      ensures SaveSafe(x) in trace <==> SaveSafe(x) in trace[..k] || trace[k] == SaveSafe(x)
    {
      if SaveSafe(x) in trace {
        var i :| 0 <= i < |trace| && trace[i] == SaveSafe(x);
        if i < k {
          assert trace[..k][i] == SaveSafe(x);
        }
      }
    }
  }

  /** Appending a safe line to a possibly missing file whose lines all end with a line break. */
  lemma AppendSafeIds(file: Option<seq<string>>, id: string)
    requires Terminated(file) && Strip(id) == id
    ensures LoadSafeList(AppendText(file, SafeLine(id))) == LoadSafeList(file) + SavedBy(SaveSafe(id))
    ensures Terminated(AppendText(file, SafeLine(id)))
  {
    SaveThenLoad(file.GetOr([]), id);
    if file.None? {
      assert [] + [SafeLine(id)] == [SafeLine(id)];
    }
  }

  /** Loading the safe file after one more effect. */
  lemma ApplySafeIds(files: Files, e: Effect, stamp: string)
    requires Terminated(files.safe)
    requires e.SaveSafe? ==> Strip(e.id) == e.id
    ensures LoadSafeList(Apply(files, e, stamp).safe) == LoadSafeList(files.safe) + SavedBy(e)
    ensures Terminated(Apply(files, e, stamp).safe)
  {
    var after := Apply(files, e, stamp).safe;
    if e.SaveSafe? {
      assert after == AppendText(files.safe, SafeLine(e.id));
      AppendSafeIds(files.safe, e.id);
    } else if e == Dedupe(SafeStore) {
      assert after == DedupeStore(files.safe);
      assert SavedBy(e) == {};
      if files.safe.Some? {
        SafeIdsSurviveDedupe(files.safe.value);
      }
    } else {
      assert after == files.safe;
      assert SavedBy(e) == {};
    }
  }

  /** The safe-list induction step: one more effect at the end of the trace. */
  lemma PersistLast(files: Files, trace: seq<Effect>, clock: nat -> string)
    requires |trace| > 0
    requires var before := Persisted(files, trace[..|trace| - 1], clock);
             Terminated(before.safe) && LoadSafeList(before.safe) == LoadSafeList(files.safe) + SavedIds(trace[..|trace| - 1])
    requires trace[|trace| - 1].SaveSafe? ==> Strip(trace[|trace| - 1].id) == trace[|trace| - 1].id
    ensures LoadSafeList(Persisted(files, trace, clock).safe) == LoadSafeList(files.safe) + SavedIds(trace)
    ensures Terminated(Persisted(files, trace, clock).safe)
  {
    var k := |trace| - 1;
    SavedIdsLast(trace);
    ApplySafeIds(Persisted(files, trace[..k], clock), trace[k], clock(k));
  }

  /**
   * Replaying a trace whose saved identifiers are stripped, on a safe file
   * whose lines end with line breaks, loads back exactly the identifiers
   * loaded before plus the `<...>` ones the trace saved: compaction loses
   * none and appending adds only these.
   */
  lemma {:induction false} PersistKeepsSafeIds(files: Files, trace: seq<Effect>, clock: nat -> string)
    requires Terminated(files.safe)
    requires forall e :: e in trace && e.SaveSafe? ==> Strip(e.id) == e.id
    ensures LoadSafeList(Persisted(files, trace, clock).safe) == LoadSafeList(files.safe) + SavedIds(trace)
    ensures Terminated(Persisted(files, trace, clock).safe)
    decreases |trace|
  {
    if |trace| > 0 {
      var k := |trace| - 1;
      assert forall e :: e in trace[..k] ==> e in trace;
      PersistKeepsSafeIds(files, trace[..k], clock);
      assert trace[k] in trace;
      PersistLast(files, trace, clock);
    }
  }

  /**
   * An identifier saved as safe in one interactive session is neither shown
   * nor acted on in the next one that loads the resulting safe file.
   */
  lemma SavedIdsSkippedNextSession(cfg: Config, keywordArg: Option<string>, keywordFile: Option<seq<string>>,
                                   files: Files, arts: seq<Article>, inputs: seq<string>, clock: nat -> string,
                                   cfg2: Config, arts2: seq<Article>, inputs2: seq<string>, id: string)
    requires SaveSafe(id) in RunInteractive(cfg, keywordArg, keywordFile, files.safe, arts, inputs).trace
    requires IsAngle(id) && Terminated(files.safe)
    ensures var first := RunInteractive(cfg, keywordArg, keywordFile, files.safe, arts, inputs);
            var after := Persisted(files, first.trace, clock);
            var second := RunInteractive(cfg2, keywordArg, keywordFile, after.safe, arts2, inputs2);
            forall e :: e in second.trace && (e.Show? || IsAction(e)) ==> e.id != id
  {
    var first := RunInteractive(cfg, keywordArg, keywordFile, files.safe, arts, inputs);
    assert forall e :: e in first.trace && e.SaveSafe? ==> IsAction(e);
    PersistKeepsSafeIds(files, first.trace, clock);
    var after := Persisted(files, first.trace, clock);
    assert id in LoadSafeList(after.safe);
  }

  // ---------------------------------------------------------------------
  // Log entries and the export

  /** The first token of a one-line file. */
  lemma TokensOfOneLine(line: string, t: string)
    requires FirstToken(line) == Some(t)
    ensures Tokens([line]) == [t]
  {
    assert [line][..0] == [];
  }

  /**
   * As written, two batch deletions logged to a fresh log file form one line
   * (neither text ends with a line break), so the export finds only the
   * first identifier and the second is never shared.
   */
  lemma BatchLogLosesSecondId(ts1: string, a: string, p1: string, ts2: string, b: string, p2: string)
    requires '<' !in ts1 && IsToken(a) && IsToken(b) && a != b
    ensures var log := AppendText(AppendText(None, BatchLogTextAsWritten(ts1, a, p1)),
                                  BatchLogTextAsWritten(ts2, b, p2)).value;
            |log| == 1 && DistinctFirst(Tokens(log)) == [a] && b !in DistinctFirst(Tokens(log))
  {
    var first := BatchLogTextAsWritten(ts1, a, p1);
    var second := BatchLogTextAsWritten(ts2, b, p2);
    AppendToUnterminated(first, second);
    AsWrittenFirstToken(ts1, a, p1, second);
    TokensOfOneLine(first + second, a);
    DistinctFirstSingle(a);
  }

  /** Two appends to a fresh file, the first without a line break, make one line. */
  lemma AppendToUnterminated(first: string, second: string)
    requires !EndsWith(first, "\n")
    ensures AppendText(AppendText(None, first), second).value == [first + second]
  {
    assert Terminated(None);
    assert [] + [first] == [first];
  }

  /** The identifier is the first token of a batch entry, whatever follows it. */
  lemma AsWrittenFirstToken(ts: string, id: string, path: string, more: string)
    requires '<' !in ts && IsToken(id)
    ensures FirstToken(BatchLogTextAsWritten(ts, id, path) + more) == Some(id)
  {
    var prefix := ts + " DELETED ";
    var rest := " from " + path + "\\n" + more;
    assert forall k :: 0 <= k < |prefix| - |ts| ==> prefix[|ts| + k] == " DELETED "[k];
    assert BatchLogTextAsWritten(ts, id, path) + more == prefix + id + rest;
    FirstTokenAfter(prefix, id, rest);
  }

  /** A single token is its own distinct-first listing. */
  lemma DistinctFirstSingle(a: string)
    ensures DistinctFirst([a]) == [a]
  {
    assert [a][..0] == [];
  }

  /**
   * With the line break the format evidently intends, every logged
   * identifier reaches the export: appending an entry to a log whose lines
   * end with line breaks adds the identifier to what the export writes, and
   * keeps everything it wrote before.
   */
  lemma LoggedEntryIsExported(log: Option<seq<string>>, ts: string, id: string, path: string)
    requires Terminated(log) && '<' !in ts && IsToken(id)
    ensures var after := AppendText(log, LogLine(ts, id, path));
            Terminated(after) && id in DistinctFirst(Tokens(after.value))
            && forall x :: x in DistinctFirst(Tokens(log.GetOr([]))) ==> x in DistinctFirst(Tokens(after.value))
  {
    var lines := log.GetOr([]);
    var line := LogLine(ts, id, path);
    var after := lines + [line];
    assert AppendText(log, line).value == after;
    assert after[..|after| - 1] == lines;
    LoggedIdIsExported(ts, id, path);
    assert Tokens(after) == Tokens(lines) + [id];
  }
}
