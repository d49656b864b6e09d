/**
 * The two persisted line files and what is derived from them: compaction
 * (`dedupe_file`), the safe list (`load_safe_list`, `save_safe_message`),
 * the deletion log line, and the identifier export (`run_export_spamlog`).
 * A file is the sequence of its lines as Python iterates them, each with its
 * newline.
 */
module Persist {
  import opened Wrappers
  import opened Text

  // ---------------------------------------------------------------------
  // Compaction: the distinct non-blank stripped lines, in ascending order

  /** Adds `x` to a strictly sorted sequence, keeping it strictly sorted. */
  function Insert(s: seq<string>, x: string): (r: seq<string>)
    requires StrictlySorted(s)
    ensures StrictlySorted(r)
    ensures forall y :: y in r <==> y in s || y == x
  {
    if |s| == 0 then [x]
    else if x == s[0] then s
    else if Less(x, s[0]) then
      assert forall j :: 0 <= j < |s| ==> Less(x, s[j]) by {
        forall j | 0 <= j < |s| ensures Less(x, s[j]) {
          if j > 0 {
            LessTransitive(x, s[0], s[j]);
          }
        }
      }
      [x] + s
    else
      LessTotal(x, s[0]);
      var rest := Insert(s[1..], x);
      assert forall y :: y in rest ==> Less(s[0], y) by {
        forall y | y in rest ensures Less(s[0], y) {
          if y != x {
            var j :| 0 <= j < |s[1..]| && s[1..][j] == y;
            assert s[j + 1] == y;
          }
        }
      }
      [s[0]] + rest
  }

  /** Two strictly sorted sequences with the same elements are the same sequence. */
  lemma {:induction false} SortedUnique(a: seq<string>, b: seq<string>)
    requires StrictlySorted(a) && StrictlySorted(b)
    requires forall x :: x in a <==> x in b
    ensures a == b
  {
    assert |b| == 0 || b[0] in b;
    if |a| == 0 {
    } else {
      assert a[0] in a && b != [];
      assert b[0] in b;
      if a[0] != b[0] {
        var i :| 0 <= i < |a| && a[i] == b[0];
        var j :| 0 <= j < |b| && b[j] == a[0];
        assert Less(a[0], b[0]);
        assert Less(b[0], a[0]);
        LessAsymmetric(a[0], b[0]);
      }
      forall x ensures x in a[1..] <==> x in b[1..] {
        if x in a[1..] {
          var i :| 0 <= i < |a[1..]| && a[1..][i] == x;
          assert a[i + 1] == x && Less(a[0], x);
          LessIrreflexive(x);
          assert x in b;
        }
        if x in b[1..] {
          var i :| 0 <= i < |b[1..]| && b[1..][i] == x;
          assert b[i + 1] == x && Less(b[0], x);
          LessIrreflexive(x);
          assert x in a;
        }
      }
      SortedUnique(a[1..], b[1..]);
      assert a == [a[0]] + a[1..] && b == [b[0]] + b[1..];
    }
  }

  /** Some line of `lines` strips to `x`. */
  predicate HasStripped(lines: seq<string>, x: string) {
    exists i :: 0 <= i < |lines| && Strip(lines[i]) == x
  }

  /** Lines of either part strip to exactly what lines of the whole do. */
  lemma HasStrippedAppend(a: seq<string>, b: seq<string>)
    ensures forall x :: HasStripped(a + b, x) <==> HasStripped(a, x) || HasStripped(b, x)
  {
    forall x ensures HasStripped(a + b, x) <==> HasStripped(a, x) || HasStripped(b, x) {
      if HasStripped(a + b, x) {
        var i :| 0 <= i < |a + b| && Strip((a + b)[i]) == x;
        if i < |a| {
          assert a[i] == (a + b)[i];
        } else {
          assert b[i - |a|] == (a + b)[i];
        }
      }
      if HasStripped(a, x) {
        var i :| 0 <= i < |a| && Strip(a[i]) == x;
        assert a[i] == (a + b)[i];
      }
      if HasStripped(b, x) {
        var i :| 0 <= i < |b| && Strip(b[i]) == x;
        assert b[i] == (a + b)[|a| + i];
      }
    }
  }

  /** A line strips to `x` when the first one does or one of the others does. */
  lemma HasStrippedCons(lines: seq<string>)
    requires |lines| > 0
    ensures forall x :: HasStripped(lines, x) <==> x == Strip(lines[0]) || HasStripped(lines[1..], x)
  {
    forall x ensures HasStripped(lines, x) <==> x == Strip(lines[0]) || HasStripped(lines[1..], x) {
      if HasStripped(lines, x) && x != Strip(lines[0]) {
        var i :| 0 <= i < |lines| && Strip(lines[i]) == x;
        assert lines[1..][i - 1] == lines[i];
      }
      if HasStripped(lines[1..], x) {
        var i :| 0 <= i < |lines[1..]| && Strip(lines[1..][i]) == x;
        assert lines[i + 1] == lines[1..][i];
      }
    }
  }

  /** For entries that are already stripped, stripping finds exactly the entries. */
  lemma HasStrippedOfStripped(s: seq<string>)
    requires forall x :: x in s ==> Strip(x) == x
    ensures forall x :: HasStripped(s, x) <==> x in s
  {
    forall x ensures HasStripped(s, x) <==> x in s {
      if x in s {
        var i :| 0 <= i < |s| && s[i] == x;
        assert Strip(s[i]) == x;
      }
    }
  }

  /**
   * The entries `dedupe_file` keeps: the distinct non-empty stripped lines,
   * in ascending code-point order.
   */
  function Compact(lines: seq<string>): (r: seq<string>)
    ensures StrictlySorted(r)
    ensures forall x :: x in r <==> x != "" && HasStripped(lines, x)
  {
    if |lines| == 0 then []
    else
      var t := Strip(lines[0]);
      var rest := Compact(lines[1..]);
      HasStrippedCons(lines);
      if t == "" then rest else Insert(rest, t)
  }

  /** Sorted output has no repeated entries. */
  lemma SortedDistinct(s: seq<string>)
    requires StrictlySorted(s)
    ensures forall i, j :: 0 <= i < j < |s| ==> s[i] != s[j]
  {
    forall i, j | 0 <= i < j < |s| ensures s[i] != s[j] {
      LessIrreflexive(s[i]);
    }
  }

  /** Compacted entries are stripped. */
  lemma CompactStripped(lines: seq<string>)
    ensures forall x :: x in Compact(lines) ==> Strip(x) == x
  {
    forall x | x in Compact(lines) ensures Strip(x) == x {
      var i :| 0 <= i < |lines| && Strip(lines[i]) == x;
      StripIdempotent(lines[i]);
    }
  }

  /** Compacting compacted entries changes nothing. */
  lemma CompactIdempotent(lines: seq<string>)
    ensures Compact(Compact(lines)) == Compact(lines)
  {
    var r := Compact(lines);
    CompactStripped(lines);
    forall x ensures x in Compact(r) <==> x in r {
      if x in r {
        var i :| 0 <= i < |r| && r[i] == x;
        assert Strip(r[i]) == x;
      }
    }
    SortedUnique(Compact(r), r);
  }

  /** Entries appended after a compaction end up as if compacted with the rest. */
  lemma CompactThenAppend(a: seq<string>, b: seq<string>)
    ensures Compact(Compact(a) + b) == Compact(a + b)
  {
    var ca := Compact(a);
    CompactStripped(a);
    HasStrippedOfStripped(ca);
    HasStrippedAppend(ca, b);
    HasStrippedAppend(a, b);
    SortedUnique(Compact(ca + b), Compact(a + b));
  }

  /** Each entry written as a newline-terminated line. */
  function Lines(entries: seq<string>): (file: seq<string>)
    ensures |file| == |entries|
    ensures forall i :: 0 <= i < |entries| ==> file[i] == entries[i] + "\n"
  {
    seq(|entries|, i requires 0 <= i < |entries| => entries[i] + "\n")
  }

  /** Reading back newline-terminated stripped entries strips to the entries. */
  lemma StripLines(entries: seq<string>)
    requires forall x :: x in entries ==> Strip(x) == x
    ensures forall i :: 0 <= i < |entries| ==> Strip(Lines(entries)[i]) == entries[i]
  {
    forall i | 0 <= i < |entries| ensures Strip(Lines(entries)[i]) == entries[i] {
      assert entries[i] in entries;
      StripTrailingSpace(entries[i], '\n');
      assert entries[i] + "\n" == entries[i] + ['\n'];
    }
  }

  /** The lines written for stripped entries strip to exactly those entries. */
  lemma HasStrippedLines(entries: seq<string>)
    requires forall i :: 0 <= i < |entries| ==> Strip(Lines(entries)[i]) == entries[i]
    ensures forall x :: HasStripped(Lines(entries), x) <==> x in entries
  {
    var r := Lines(entries);
    forall x ensures HasStripped(r, x) <==> x in entries {
      if x in entries {
        var i :| 0 <= i < |entries| && entries[i] == x;
        assert Strip(r[i]) == x;
      }
    }
  }

  /** `dedupe_file`: the file rewritten with its compacted entries. */
  function DedupeFile(file: seq<string>): (r: seq<string>)
    ensures |r| <= |file|
    ensures forall i :: 0 <= i < |r| ==> Strip(r[i]) != "" && EndsWith(r[i], "\n")
    ensures forall i, j :: 0 <= i < j < |r| ==> Less(Strip(r[i]), Strip(r[j]))
    ensures forall x :: HasStripped(r, x) <==> x != "" && HasStripped(file, x)
  {
    CompactLines(file);
    Lines(Compact(file))
  }

  /**
   * The compacted entries written one per line: non-empty, terminated, in
   * order, and stripping to exactly the non-blank stripped lines of the input.
   */
  lemma CompactLines(file: seq<string>)
    ensures var r := Lines(Compact(file));
            |r| <= |file| && (forall i :: 0 <= i < |r| ==> Strip(r[i]) != "" && EndsWith(r[i], "\n"))
            && forall i, j :: 0 <= i < j < |r| ==> Less(Strip(r[i]), Strip(r[j]))
    ensures forall x :: HasStripped(Lines(Compact(file)), x) <==> x != "" && HasStripped(file, x)
  {
    var c := Compact(file);
    CompactStripped(file);
    StripLines(c);
    HasStrippedLines(c);
    assert forall i :: 0 <= i < |c| ==> c[i] in c;
    CompactShorter(file);
  }

  /** Compaction never produces more entries than lines. */
  lemma {:induction false} CompactShorter(lines: seq<string>)
    ensures |Compact(lines)| <= |lines|
  {
    if |lines| > 0 {
      CompactShorter(lines[1..]);
      var rest := Compact(lines[1..]);
      var t := Strip(lines[0]);
      if t != "" {
        InsertLength(rest, t);
      }
    }
  }

  lemma {:induction false} InsertLength(s: seq<string>, x: string)
    requires StrictlySorted(s)
    ensures |Insert(s, x)| <= |s| + 1
  {
    if |s| > 0 && x != s[0] && !Less(x, s[0]) {
      InsertLength(s[1..], x);
    }
  }

  /** Compacting a compacted file leaves it as it is. */
  lemma DedupeFileIdempotent(file: seq<string>)
    ensures DedupeFile(DedupeFile(file)) == DedupeFile(file)
  {
    var c := Compact(file);
    CompactStripped(file);
    StripLines(c);
    var l := Lines(c);
    forall x ensures x in Compact(l) <==> x in c {
      if x in c {
        var i :| 0 <= i < |c| && c[i] == x;
        assert Strip(l[i]) == x;
      }
      if x != "" && HasStripped(l, x) {
        var i :| 0 <= i < |l| && Strip(l[i]) == x;
        assert c[i] == x;
      }
    }
    SortedUnique(Compact(l), c);
  }

  // ---------------------------------------------------------------------
  // The safe list

  /** A line shaped like `<...>`. */
  predicate IsAngle(x: string) {
    StartsWith(x, "<") && EndsWith(x, ">")
  }

  /** The stripped `<...>` lines of the safe file. */
  function SafeIds(lines: seq<string>): (ids: set<string>)
    ensures forall x :: x in ids <==> IsAngle(x) && HasStripped(lines, x)
  {
    if |lines| == 0 then {}
    else
      var t := Strip(lines[0]);
      var rest := SafeIds(lines[1..]);
      HasStrippedCons(lines);
      if IsAngle(t) then {t} + rest else rest
  }

  /** `load_safe_list`: a missing file gives the empty set. */
  function LoadSafeList(file: Option<seq<string>>): (ids: set<string>)
    ensures file.None? ==> ids == {}
    ensures file.Some? ==> forall x :: x in ids <==> IsAngle(x) && HasStripped(file.value, x)
  {
    if file.None? then {} else SafeIds(file.value)
  }

  /** The line `save_safe_message` appends: the identifier and a line break; it reads back as the identifier. */
  function SafeLine(id: string): (line: string)
    ensures EndsWith(line, "\n")
    ensures Strip(line) == Strip(id)
  {
    StripTrailingSpace(id, '\n');
    assert id + "\n" == id + ['\n'];
    assert (id + "\n")[|id|..] == "\n";
    id + "\n"
  }

  /** A one-line file strips to that line's stripped text only. */
  lemma HasStrippedSingle(line: string)
    ensures forall x :: HasStripped([line], x) <==> x == Strip(line)
  {
    assert [line][0] == line;
  }

  /** One more line adds its stripped text to the safe list, when that looks like `<...>`. */
  lemma SafeIdsAppendLine(file: seq<string>, line: string)
    ensures SafeIds(file + [line]) == SafeIds(file) + (if IsAngle(Strip(line)) then {Strip(line)} else {})
  {
    HasStrippedSingle(line);
    HasStrippedAppend(file, [line]);
    AngleSetsChain(SafeIds(file + [line]), SafeIds(file), file + [line], file, Strip(line));
  }

  /** Sets of `<...>` texts that lines strip to, when one list adds a single text `t`. */
  lemma AngleSetsChain(whole: set<string>, part: set<string>, wholeLines: seq<string>, partLines: seq<string>, t: string)
    requires forall x :: x in whole <==> IsAngle(x) && HasStripped(wholeLines, x)
    requires forall x :: x in part <==> IsAngle(x) && HasStripped(partLines, x)
    requires forall x :: HasStripped(wholeLines, x) <==> HasStripped(partLines, x) || x == t
    ensures whole == part + (if IsAngle(t) then {t} else {})
  {
  }

  /** An identifier saved as safe is loaded back, provided it looks like `<...>`. */
  lemma SaveThenLoad(file: seq<string>, id: string)
    requires Strip(id) == id
    ensures SafeIds(file + [SafeLine(id)]) == SafeIds(file) + (if IsAngle(id) then {id} else {})
  {
    assert Strip(SafeLine(id)) == id by {
      StripTrailingSpace(id, '\n');
      assert SafeLine(id) == id + ['\n'];
    }
    SafeIdsAppendLine(file, SafeLine(id));
  }

  /** Compaction keeps the safe list: loading before or after gives the same set. */
  lemma SafeIdsSurviveDedupe(file: seq<string>)
    ensures SafeIds(DedupeFile(file)) == SafeIds(file)
  {
    var c := Compact(file);
    CompactStripped(file);
    StripLines(c);
    var l := Lines(c);
    forall x | IsAngle(x) ensures HasStripped(l, x) <==> HasStripped(file, x) {
      if HasStripped(file, x) {
        assert x != "";
        assert x in c;
        var i :| 0 <= i < |c| && c[i] == x;
        assert Strip(l[i]) == x;
      }
      if HasStripped(l, x) {
        var i :| 0 <= i < |l| && Strip(l[i]) == x;
        assert c[i] in c;
      }
    }
  }

  // ---------------------------------------------------------------------
  // The deletion log and the identifier export

  /**
   * The entry the interactive session logs: the time stamp, the word DELETED,
   * the identifier, the word from and the article path, ending the line.
   */
  function LogLine(timestamp: string, id: string, path: string): (line: string)
    ensures EndsWith(line, "\n")
  {
    var line := timestamp + " DELETED " + id + " from " + path + "\n";
    assert line[|line| - 1..] == "\n";
    line
  }

  /**
   * The batch log text as `run_batch_delete_args` writes it: the `\\n` in its
   * format string is a backslash and an `n`, not a line break.
   */
  function BatchLogTextAsWritten(timestamp: string, id: string, path: string): (text: string)
    ensures !EndsWith(text, "\n")
  {
    var text := timestamp + " DELETED " + id + " from " + path + "\\n";
    assert text[|text| - 1] == 'n';
    text
  }

  /** A match of `<[^>]+>`: `<`, at least one character other than `>`, then `>`. */
  predicate IsToken(t: string) {
    |t| >= 3 && t[0] == '<' && t[|t| - 1] == '>' && forall k :: 1 <= k < |t| - 1 ==> t[k] != '>'
  }

  /** `<[^>]+>` can match starting at `i`. */
  predicate TokenStart(line: string, i: int) {
    0 <= i && i + 1 < |line| && line[i] == '<' && line[i + 1] != '>' && IndexOf(line[i + 1..], '>') < |line| - i - 1
  }

  /** The match starting at `i`: up to and including the first `>` after `<`. */
  function TokenAt(line: string, i: int): (t: string)
    requires TokenStart(line, i)
    ensures IsToken(t)
    ensures i + |t| <= |line| && line[i..i + |t|] == t
  {
    line[i..i + 1 + IndexOf(line[i + 1..], '>') + 1]
  }

  /** Leftmost index from `from` on where a match starts. */
  function TokenIndex(line: string, from: nat): (k: Option<nat>)
    ensures k.None? ==> forall j :: from <= j < |line| ==> !TokenStart(line, j)
    ensures k.Some? ==> from <= k.value && TokenStart(line, k.value)
                        && forall j :: from <= j < k.value ==> !TokenStart(line, j)
    decreases |line| - from
  {
    if from >= |line| then None
    else if TokenStart(line, from) then Some(from)
    else TokenIndex(line, from + 1)
  }

  /** The leftmost `<...>` token of the line, or None when it has none. */
  function FirstToken(line: string): (t: Option<string>)
    ensures t.None? <==> forall j :: 0 <= j < |line| ==> !TokenStart(line, j)
    ensures t.Some? ==> IsToken(t.value)
    ensures t.Some? ==> exists k :: 0 <= k < |line| && TokenStart(line, k) && TokenAt(line, k) == t.value
                                    && forall j :: 0 <= j < k ==> !TokenStart(line, j)
  {
    match TokenIndex(line, 0)
    case None => None
    case Some(k) => Some(TokenAt(line, k))
  }

  /** A token preceded by text without `<` is the first match of the line. */
  lemma FirstTokenAfter(a: string, t: string, b: string)
    requires '<' !in a && IsToken(t)
    ensures FirstToken(a + t + b) == Some(t)
  {
    var line := a + t + b;
    var n := |a|;
    forall j | 0 <= j < n ensures !TokenStart(line, j) {
      assert line[j] == a[j];
    }
    var rest := line[n + 1..];
    assert forall k :: 0 <= k < |t| - 2 ==> rest[k] == t[k + 1] && t[k + 1] != '>';
    assert rest[|t| - 2] == '>';
    IndexOfAt(rest, '>', |t| - 2);
    assert TokenStart(line, n);
    assert line[n..n + |t|] == t;
    assert TokenIndex(line, 0) == Some(n);
  }

  /** The identifier of a logged deletion is what the export finds on its line. */
  lemma LoggedIdIsExported(timestamp: string, id: string, path: string)
    requires '<' !in timestamp && IsToken(id)
    ensures FirstToken(LogLine(timestamp, id, path)) == Some(id)
  {
    var a := timestamp + " DELETED ";
    assert LogLine(timestamp, id, path) == a + id + (" from " + path + "\n");
    FirstTokenAfter(a, id, " from " + path + "\n");
  }

  /** The first token of every line that has one, in line order. */
  function Tokens(log: seq<string>): (ts: seq<string>)
    ensures forall t :: t in ts ==> IsToken(t)
  {
    if |log| == 0 then []
    else
      var rest := Tokens(log[..|log| - 1]);
      match FirstToken(log[|log| - 1])
      case None => rest
      case Some(t) => rest + [t]
  }

  /** Index of the first occurrence of `x` in `s`. */
  function FirstIndex(s: seq<string>, x: string): (k: nat)
    requires x in s
    ensures k < |s| && s[k] == x && x !in s[..k]
  {
    if s[0] == x then 0 else 1 + FirstIndex(s[1..], x)
  }

  /**
   * The distinct elements of `s`, each once, in order of first appearance:
   * what the export writes.
   */
  function DistinctFirst(s: seq<string>): (r: seq<string>)
    ensures forall i, j :: 0 <= i < j < |r| ==> r[i] != r[j]
    ensures forall x :: x in r <==> x in s
  {
    if |s| == 0 then []
    else
      var d := DistinctFirst(s[..|s| - 1]);
      if s[|s| - 1] in d then d else d + [s[|s| - 1]]
  }

  /** Elements of `r` that occur in `s` are listed in the order they first appear there. */
  predicate FirstSeenOrder(s: seq<string>, r: seq<string>) {
    forall i, j :: 0 <= i < j < |r| && r[i] in s && r[j] in s ==> FirstIndex(s, r[i]) < FirstIndex(s, r[j])
  }

  /** The listing keeps the order in which elements first appear in `s`. */
  lemma {:induction false} DistinctFirstOrder(s: seq<string>)
    ensures FirstSeenOrder(s, DistinctFirst(s))
  {
    if |s| > 0 {
      var p := s[..|s| - 1];
      DistinctFirstOrder(p);
      SplitLast(s);
      OrderAppend(p, s[|s| - 1], DistinctFirst(p), DistinctFirst(s));
    }
  }

  /** Appending `x` to `p` keeps the first-seen order of a listing that adds `x` only when new. */
  lemma OrderAppend(p: seq<string>, x: string, d: seq<string>, r: seq<string>)
    requires FirstSeenOrder(p, d)
    requires forall y :: y in d <==> y in p
    requires r == if x in d then d else d + [x]
    ensures FirstSeenOrder(p + [x], r)
  {
    var s := p + [x];
    assert forall y :: y in p ==> FirstIndex(s, y) == FirstIndex(p, y) by {
      forall y | y in p ensures FirstIndex(s, y) == FirstIndex(p, y) {
        FirstIndexPrefix(p, x, y);
      }
    }
    forall i, j | 0 <= i < j < |r| && r[i] in s && r[j] in s
      ensures FirstIndex(s, r[i]) < FirstIndex(s, r[j])
    {
      assert r[i] == d[i] && d[i] in p;
      if j < |d| {
        assert r[j] == d[j] && d[j] in p;
        assert FirstIndex(p, d[i]) < FirstIndex(p, d[j]);
      } else {
        assert r[j] == x && x !in p;
        assert FirstIndex(s, x) == |p|;
      }
    }
  }

  lemma {:induction false} FirstIndexPrefix(p: seq<string>, x: string, y: string)
    requires y in p
    ensures FirstIndex(p + [x], y) == FirstIndex(p, y)
  {
    if p[0] != y {
      assert (p + [x])[1..] == p[1..] + [x];
      FirstIndexPrefix(p[1..], x, y);
    }
  }

  /**
   * The body of `run_export_spamlog`: one pass over the log, writing each
   * line's first token unless already seen.
   */
  method ExportIds(log: seq<string>) returns (out: seq<string>, count: nat)
    ensures out == DistinctFirst(Tokens(log))
    ensures count == |out|
    ensures forall i, j :: 0 <= i < j < |out| ==> out[i] != out[j]
    ensures forall t :: t in out <==> t in Tokens(log)
    ensures FirstSeenOrder(Tokens(log), out)
  {
    var seen: set<string> := {};
    out := [];
    var i := 0;
    while i < |log|
      invariant 0 <= i <= |log|
      invariant out == DistinctFirst(Tokens(log[..i]))
      invariant forall t :: t in seen <==> t in out
    {
      assert log[..i + 1][..i] == log[..i];
      match FirstToken(log[i]) {
        case None =>
        case Some(t) =>
          if t !in seen {
            out := out + [t];
            seen := seen + {t};
          }
      }
      i := i + 1;
    }
    assert log[..i] == log;
    count := |seen|;
    DistinctCardinality(out, seen);
    DistinctFirstOrder(Tokens(log));
  }

  /** A duplicate-free sequence has as many elements as its element set. */
  lemma {:induction false} DistinctCardinality(s: seq<string>, e: set<string>)
    requires forall i, j :: 0 <= i < j < |s| ==> s[i] != s[j]
    requires forall t :: t in e <==> t in s
    ensures |e| == |s|
  {
    if |s| > 0 {
      var x := s[|s| - 1];
      var p := s[..|s| - 1];
      forall t ensures t in e - {x} <==> t in p {
        if t in p {
          var k :| 0 <= k < |p| && p[k] == t;
          assert s[k] == t;
        }
        if t in e - {x} {
          var k :| 0 <= k < |s| && s[k] == t;
          assert k < |s| - 1;
          assert p[k] == t;
        }
      }
      DistinctCardinality(p, e - {x});
    }
  }

  /**
   * `run_export_spamlog`: with no log there is no output file and
   * nothing is counted; otherwise the output holds one line per distinct
   * identifier and the count is the number of lines written.
   */
  method ExportSpamlog(log: Option<seq<string>>) returns (written: Option<seq<string>>, count: nat)
    ensures log.None? ==> written.None? && count == 0
    ensures log.Some? ==> written == Some(Lines(DistinctFirst(Tokens(log.value))))
    ensures written.Some? ==> count == |written.value|
  {
    if log.None? {
      return None, 0;
    }
    var out;
    out, count := ExportIds(log.value);
    written := Some(Lines(out));
  }

  /** Exporting an export's output reproduces it line for line. */
  lemma ExportIsStable(log: seq<string>)
    ensures var out := DistinctFirst(Tokens(log));
            DistinctFirst(Tokens(Lines(out))) == out
  {
    var out := DistinctFirst(Tokens(log));
    assert forall t :: t in out ==> IsToken(t) by {
      forall t | t in out ensures IsToken(t) {
        assert t in Tokens(log);
      }
    }
    TokensOfTokenLines(out);
    DistinctFirstOfDistinct(out);
  }

  /** A written identifier line yields its identifier. */
  lemma FirstTokenOfLine(t: string)
    requires IsToken(t)
    ensures FirstToken(t + "\n") == Some(t)
  {
    assert "" + t + "\n" == t + "\n";
    FirstTokenAfter("", t, "\n");
  }

  /** A non-empty sequence is its front followed by its last element. */
  lemma SplitLast(s: seq<string>)
    requires |s| > 0
    ensures s == s[..|s| - 1] + [s[|s| - 1]]
  {
  }

  /** The last identifier line of a file yields the last token. */
  lemma TokensOfLinesLast(ts: seq<string>)
    requires |ts| > 0 && IsToken(ts[|ts| - 1])
    ensures Tokens(Lines(ts)) == Tokens(Lines(ts[..|ts| - 1])) + [ts[|ts| - 1]]
  {
    assert Lines(ts)[..|ts| - 1] == Lines(ts[..|ts| - 1]);
    FirstTokenOfLine(ts[|ts| - 1]);
  }

  /** The induction step: the identifiers of all but the last line, then the last one. */
  lemma TokenLinesStep(ts: seq<string>)
    requires |ts| > 0 && IsToken(ts[|ts| - 1])
    requires Tokens(Lines(ts[..|ts| - 1])) == ts[..|ts| - 1]
    ensures Tokens(Lines(ts)) == ts
  {
    TokensOfLinesLast(ts);
    SplitLast(ts);
  }

  /** A file of newline-terminated tokens yields exactly those tokens. */
  lemma {:induction false} TokensOfTokenLines(ts: seq<string>)
    requires forall i :: 0 <= i < |ts| ==> IsToken(ts[i])
    ensures Tokens(Lines(ts)) == ts
  {
    if |ts| > 0 {
      TokensOfTokenLines(ts[..|ts| - 1]);
      TokenLinesStep(ts);
    }
  }

  /** A duplicate-free sequence is its own distinct-first listing. */
  lemma {:induction false} DistinctFirstOfDistinct(s: seq<string>)
    requires forall i, j :: 0 <= i < j < |s| ==> s[i] != s[j]
    ensures DistinctFirst(s) == s
  {
    if |s| > 0 {
      var p := s[..|s| - 1];
      var x := s[|s| - 1];
      DistinctFirstOfDistinct(p);
      assert x !in p by {
        forall k | 0 <= k < |p| ensures p[k] != x {
          assert s[k] == p[k];
        }
      }
      assert DistinctFirst(s) == DistinctFirst(p) + [x];
      assert s == p + [x];
    }
  }
}
