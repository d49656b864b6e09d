/**
 * The two scanning sessions as effect traces. `run_interactive` and
 * `run_batch_delete_args` are functions from the already-read articles (and,
 * interactively, the operator's input lines) to the sequence of effects the
 * script performs: throttling and resuming the news server, showing a match,
 * cancelling, logging, saving as safe, and compacting the two files.
 */
module Session {
  import opened Wrappers
  import opened Text
  import opened Keywords
  import opened Matcher
  import opened Message
  import opened Persist

  /** The command-line switches the sessions read. */
  datatype Config = Config(subjectOnly: bool, bodyOnly: bool, dryRun: bool)

  /** An article file of the spool: its lines, or None when opening it failed. */
  datatype Article = Article(path: string, content: Option<seq<string>>)

  /** A matched article with a usable message identifier. */
  datatype Hit = Hit(id: string, path: string, keyword: string)

  /** The two persisted files. */
  datatype Store = SafeStore | LogStore

  datatype Effect =
    | Throttle                                    // ctlinnd throttle
    | Show(id: string, path: string, keyword: string) // show_summary
    | View(path: string)                          // view_full_article
    | Cancel(id: string)                          // ctlinnd cancel
    | Log(id: string, path: string)               // append a DELETED line to the log
    | SaveSafe(id: string)                        // save_safe_message
    | Resume                                      // ctlinnd go
    | Dedupe(store: Store)                        // dedupe_file

  /** How the scanning loop ended: all articles seen, `q`, or input ran out. */
  datatype Ending = Completed | Quit | Interrupted

  datatype Scan = Scan(effects: seq<Effect>, ending: Ending)

  function Prepend(es: seq<Effect>, s: Scan): Scan {
    Scan(es + s.effects, s.ending)
  }

  function ShowHit(h: Hit): Effect {
    Show(h.id, h.path, h.keyword)
  }

  /** Effects of the scanning loop itself, as opposed to the set-up and the clean-up. */
  predicate IsScanEffect(e: Effect) {
    !(e.Throttle? || e.Resume? || e.Dedupe?)
  }

  /** Effects that change the news server or the files. */
  predicate IsAction(e: Effect) {
    e.Cancel? || e.Log? || e.SaveSafe?
  }

  /** The keyword reported for an article's subject and its body lines joined by spaces. */
  function ArticleKeyword(lines: seq<string>, rules: seq<Rule>, cfg: Config): Option<string> {
    MatchKeywords(Join(" ", ExtractBody(lines)), rules, cfg.subjectOnly, cfg.bodyOnly, ExtractHeader(lines, "Subject"))
  }

  /**
   * The per-article part shared by both sessions: an article is a hit when it
   * could be read, has a non-empty message identifier, and matches a rule
   * whose text is non-empty (`if not matched` also rejects "").
   */
  function Inspect(a: Article, rules: seq<Rule>, cfg: Config): (h: Option<Hit>)
    ensures h.Some? ==> a.content.Some? && ExtractMessageId(a.content.value) == Some(h.value.id)
    ensures h.Some? ==> h.value.path == a.path && h.value.id != "" && h.value.keyword != ""
    ensures h.Some? ==> Strip(h.value.id) == h.value.id
    ensures h.Some? ==> ArticleKeyword(a.content.value, rules, cfg) == Some(h.value.keyword)
    ensures a.content.Some? && (ExtractMessageId(a.content.value).None? || ExtractMessageId(a.content.value) == Some(""))
            ==> h.None?
    ensures a.content.Some? && ArticleKeyword(a.content.value, rules, cfg) in {None, Some("")} ==> h.None?
    ensures a.content.Some? && ExtractMessageId(a.content.value).Some? && ExtractMessageId(a.content.value).value != ""
            && ArticleKeyword(a.content.value, rules, cfg).Some? && ArticleKeyword(a.content.value, rules, cfg).value != ""
            ==> h == Some(Hit(ExtractMessageId(a.content.value).value, a.path, ArticleKeyword(a.content.value, rules, cfg).value))
  {
    match a.content
    case None => None
    case Some(lines) =>
      match ExtractMessageId(lines)
      case None => None
      case Some(id) =>
        if id == "" then None
        else
          match ArticleKeyword(lines, rules, cfg)
          case None => None
          case Some(k) => if k == "" then None else Some(Hit(id, a.path, k))
  }

  /** The per-article outcome of the scan, in spool order. */
  function Outcomes(arts: seq<Article>, rules: seq<Rule>, cfg: Config): (os: seq<Option<Hit>>)
    ensures |os| == |arts|
    ensures forall i :: 0 <= i < |arts| ==> os[i] == Inspect(arts[i], rules, cfg)
  {
    seq(|arts|, i requires 0 <= i < |arts| => Inspect(arts[i], rules, cfg))
  }

  /** Every hit, in spool order, whatever the safe list says. */
  function Hits(os: seq<Option<Hit>>): (hs: seq<Hit>)
    ensures |hs| <= |os|
  {
    if |os| == 0 then []
    else
      match os[0]
      case None => Hits(os[1..])
      case Some(h) => [h] + Hits(os[1..])
  }

  /** The hits an interactive session presents: those not in the safe set loaded at start. */
  function Candidates(os: seq<Option<Hit>>, safe: set<string>): (hs: seq<Hit>)
    ensures forall h :: h in hs ==> h.id !in safe && Some(h) in os
  {
    if |os| == 0 then []
    else
      var rest := Candidates(os[1..], safe);
      assert forall h: Hit :: Some(h) in os[1..] ==> Some(h) in os;
      match os[0]
      case None => rest
      case Some(h) => if h.id in safe then rest else [h] + rest
  }

  function IdsOf(hs: seq<Hit>): set<string> {
    set h | h in hs :: h.id
  }

  // ---------------------------------------------------------------------
  // run_interactive

  /** The scanning loop of `run_interactive` over the outcomes of the remaining articles. */
  function ScanArticles(os: seq<Option<Hit>>, safe: set<string>, dryRun: bool, inputs: seq<string>): (r: Scan)
    ensures forall e :: e in r.effects ==> IsScanEffect(e)
    ensures dryRun ==> r.ending == Completed && forall e :: e in r.effects ==> e.Show?
    ensures forall e :: e in r.effects && e.Show? ==> Hit(e.id, e.path, e.keyword) in Candidates(os, safe)
    ensures forall e :: e in r.effects && IsAction(e) ==> e.id in IdsOf(Candidates(os, safe))
    decreases |os|, |inputs|, 1
  {
    if |os| == 0 then Scan([], Completed)
    else
      match os[0]
      case None => ScanArticles(os[1..], safe, dryRun, inputs)
      case Some(h) =>
        if h.id in safe then ScanArticles(os[1..], safe, dryRun, inputs)
        else if dryRun then Prepend([ShowHit(h)], ScanArticles(os[1..], safe, dryRun, inputs))
        else Prepend([ShowHit(h)], Decide(h, os[1..], safe, inputs))
  }

  /** The prompt loop for one presented hit `h`; `rest` are the outcomes after it. */
  function Decide(h: Hit, rest: seq<Option<Hit>>, safe: set<string>, inputs: seq<string>): (r: Scan)
    ensures forall e :: e in r.effects ==> IsScanEffect(e)
    ensures forall e :: e in r.effects && e.Show? ==>
              Hit(e.id, e.path, e.keyword) == h || Hit(e.id, e.path, e.keyword) in Candidates(rest, safe)
    ensures forall e :: e in r.effects && IsAction(e) ==>
              e.id == h.id || e.id in IdsOf(Candidates(rest, safe))
    decreases |rest| + 1, |inputs|, 0
  {
    if |inputs| == 0 then Scan([], Interrupted)
    else
      var choice := Lower(Strip(inputs[0]));
      if choice == "d" then
        Prepend([Cancel(h.id), Log(h.id, h.path)], ScanArticles(rest, safe, false, inputs[1..]))
      else if choice == "s" then
        Prepend([SaveSafe(h.id)], ScanArticles(rest, safe, false, inputs[1..]))
      else if choice == "v" then
        // view_full_article waits for one more line before the summary is shown again
        if |inputs| == 1 then Scan([View(h.path)], Interrupted)
        else Prepend([View(h.path), ShowHit(h)], Decide(h, rest, safe, inputs[2..]))
      else if choice == "q" then Scan([], Quit)
      else Decide(h, rest, safe, inputs[1..])
  }

  /** A whole session: its effects in order, and how the scan ended. */
  datatype Run = Run(trace: seq<Effect>, ending: Ending)

  /** The clean-up of the `finally` block of `run_interactive`. */
  const InteractiveCleanup: seq<Effect> := [Resume, Dedupe(SafeStore), Dedupe(LogStore)]

  /** A hit's identifier is the article's non-empty, stripped message identifier. */
  lemma OutcomeIds(arts: seq<Article>, rules: seq<Rule>, cfg: Config)
    ensures forall h: Hit :: Some(h) in Outcomes(arts, rules, cfg) ==> h.id != "" && Strip(h.id) == h.id
  {
    var os := Outcomes(arts, rules, cfg);
    forall h: Hit | Some(h) in os ensures h.id != "" && Strip(h.id) == h.id {
      var i :| 0 <= i < |os| && os[i] == Some(h);
      assert Inspect(arts[i], rules, cfg) == Some(h);
    }
  }

  /** The session around a scan: throttle first, the `finally` clean-up last. */
  function Enclose(r: Scan): (s: Run)
    requires forall e :: e in r.effects ==> IsScanEffect(e)
    ensures |s.trace| >= 4 && s.trace[0] == Throttle
    ensures s.trace[|s.trace| - 3..] == InteractiveCleanup
    ensures forall k :: 0 < k < |s.trace| - 3 ==> IsScanEffect(s.trace[k])
    ensures forall e :: e in s.trace && (IsAction(e) || e.Show?) ==> e in r.effects
    ensures s.trace[1..|s.trace| - 3] == r.effects
    ensures s.ending == r.ending
  {
    var trace := [Throttle] + r.effects + InteractiveCleanup;
    assert forall k :: 0 < k < |trace| - 3 ==> trace[k] == r.effects[k - 1];
    assert forall e :: e in trace ==> e == Throttle || e in r.effects || e in InteractiveCleanup;
    Run(trace, r.ending)
  }

  /** Presented and acted-on identifiers are outside the safe set, non-empty and stripped. */
  lemma CandidateIdsUsable(os: seq<Option<Hit>>, safe: set<string>)
    requires forall h: Hit :: Some(h) in os ==> h.id != "" && Strip(h.id) == h.id
    ensures forall x :: x in IdsOf(Candidates(os, safe)) ==> x !in safe && x != "" && Strip(x) == x
  {
  }

  /**
   * `run_interactive`: load the rules and the safe set, throttle, scan, and
   * always resume and compact both files, however the scan ended.
   */
  function RunInteractive(cfg: Config, keywordArg: Option<string>, keywordFile: Option<seq<string>>,
                          safeFile: Option<seq<string>>, arts: seq<Article>, inputs: seq<string>): (s: Run)
    ensures |s.trace| >= 4 && s.trace[0] == Throttle
    ensures s.trace[|s.trace| - 3..] == InteractiveCleanup
    ensures forall k :: 0 < k < |s.trace| - 3 ==> IsScanEffect(s.trace[k])
    ensures cfg.dryRun ==> s.ending == Completed && forall e :: e in s.trace ==> !IsAction(e)
    ensures forall e :: e in s.trace && IsAction(e) ==> e.id !in LoadSafeList(safeFile) && e.id != ""
    ensures forall e :: e in s.trace && IsAction(e) ==> Strip(e.id) == e.id
    ensures forall e :: e in s.trace && e.Show? ==> e.id !in LoadSafeList(safeFile) && e.id != "" && Strip(e.id) == e.id
    ensures var r := ScanArticles(Outcomes(arts, LoadKeywords(keywordArg, keywordFile), cfg), LoadSafeList(safeFile), cfg.dryRun, inputs);
            s.trace[1..|s.trace| - 3] == r.effects && s.ending == r.ending
  {
    var rules := LoadKeywords(keywordArg, keywordFile);
    var safe := LoadSafeList(safeFile);
    var os := Outcomes(arts, rules, cfg);
    OutcomeIds(arts, rules, cfg);
    CandidateIdsUsable(os, safe);
    Enclose(ScanArticles(os, safe, cfg.dryRun, inputs))
  }

  // ---------------------------------------------------------------------
  // run_batch_delete_args

  /** Effects of the batch loop, with the two counters it prints. */
  datatype Batch = Batch(effects: seq<Effect>, matches: nat, count: nat)

  /** Number of cancel commands in a trace. */
  function CancelCount(es: seq<Effect>): nat {
    if |es| == 0 then 0 else (if es[0].Cancel? then 1 else 0) + CancelCount(es[1..])
  }

  lemma {:induction false} CancelCountAppend(a: seq<Effect>, b: seq<Effect>)
    ensures CancelCount(a + b) == CancelCount(a) + CancelCount(b)
  {
    if |a| == 0 {
      assert a + b == b;
    } else {
      assert (a + b)[0] == a[0];
      assert (a + b)[1..] == a[1..] + b;
      CancelCountAppend(a[1..], b);
    }
  }

  /** The batch loop: every hit is counted; outside a dry run it is cancelled and logged. */
  function BatchScan(os: seq<Option<Hit>>, dryRun: bool): (b: Batch)
    ensures b.matches == |Hits(os)|
    ensures b.count == CancelCount(b.effects)
    ensures dryRun ==> b.effects == [] && b.count == 0
    ensures !dryRun ==> b.count == b.matches
    ensures forall e :: e in b.effects ==> e.Cancel? || e.Log?
  {
    if |os| == 0 then Batch([], 0, 0)
    else
      var rest := BatchScan(os[1..], dryRun);
      match os[0]
      case None => rest
      case Some(h) =>
        if dryRun then Batch(rest.effects, rest.matches + 1, rest.count)
        else
          var es := [Cancel(h.id), Log(h.id, h.path)];
          CancelCountAppend(es, rest.effects);
          Batch(es + rest.effects, rest.matches + 1, rest.count + 1)
  }

  /** The batch session around its loop: throttle first, resume last, nothing else added. */
  function EncloseBatch(r: Batch): (b: Batch)
    requires r.count == CancelCount(r.effects)
    requires forall e :: e in r.effects ==> e.Cancel? || e.Log?
    ensures |b.effects| >= 2 && b.effects[0] == Throttle && b.effects[|b.effects| - 1] == Resume
    ensures forall e :: e in b.effects ==> !e.Dedupe? && !e.SaveSafe? && !e.Show?
    ensures b.matches == r.matches && b.count == r.count
    ensures b.count == CancelCount(b.effects)
    ensures b.effects[1..|b.effects| - 1] == r.effects
  {
    var trace := [Throttle] + r.effects + [Resume];
    CancelCountAppend([Throttle], r.effects);
    CancelCountAppend([Throttle] + r.effects, [Resume]);
    assert forall e :: e in trace ==> e == Throttle || e in r.effects || e == Resume;
    Batch(trace, r.matches, r.count)
  }

  /**
   * `run_batch_delete_args`: no safe list is consulted, and its `finally`
   * only resumes the server; neither file is compacted.
   */
  function RunBatch(cfg: Config, keywordArg: Option<string>, keywordFile: Option<seq<string>>,
                    arts: seq<Article>): (b: Batch)
    ensures |b.effects| >= 2 && b.effects[0] == Throttle && b.effects[|b.effects| - 1] == Resume
    ensures forall e :: e in b.effects ==> !e.Dedupe? && !e.SaveSafe? && !e.Show?
    ensures b.matches == |Hits(Outcomes(arts, LoadKeywords(keywordArg, keywordFile), cfg))|
    ensures b.count == CancelCount(b.effects)
    ensures cfg.dryRun ==> b.count == 0 && b.effects == [Throttle, Resume]
    ensures !cfg.dryRun ==> b.count == b.matches
    ensures !cfg.dryRun ==>
      b.effects == [Throttle] + CancelAll(Hits(Outcomes(arts, LoadKeywords(keywordArg, keywordFile), cfg))) + [Resume]
  {
    var os := Outcomes(arts, LoadKeywords(keywordArg, keywordFile), cfg);
    BatchCancelsEveryHit(os);
    EncloseBatch(BatchScan(os, cfg.dryRun))
  }

  // ---------------------------------------------------------------------
  // Properties of the interactive loop

  /** The summaries a dry run shows: one per candidate, in order. */
  function ShowAll(hs: seq<Hit>): (es: seq<Effect>)
    ensures |es| == |hs|
  {
    if |hs| == 0 then [] else [ShowHit(hs[0])] + ShowAll(hs[1..])
  }

  /** An interactive dry run shows every candidate once, in order, and prompts for nothing. */
  lemma {:induction false} DryRunShowsEveryCandidate(os: seq<Option<Hit>>, safe: set<string>, inputs: seq<string>)
    ensures ScanArticles(os, safe, true, inputs) == Scan(ShowAll(Candidates(os, safe)), Completed)
    decreases |os|
  {
    if |os| > 0 {
      DryRunShowsEveryCandidate(os[1..], safe, inputs);
    }
  }

  /** What deleting one presented hit produces. */
  function DeleteAll(hs: seq<Hit>): (es: seq<Effect>)
    ensures |es| == 3 * |hs|
  {
    if |hs| == 0 then []
    else [ShowHit(hs[0]), Cancel(hs[0].id), Log(hs[0].id, hs[0].path)] + DeleteAll(hs[1..])
  }

  /** `n` answers of `d`. */
  function Repeat(x: string, n: nat): (xs: seq<string>)
    ensures |xs| == n && forall i :: 0 <= i < n ==> xs[i] == x
  {
    seq(n, _ => x)
  }

  /** A lower-case one-letter answer reads as itself. */
  lemma LetterAnswer(x: string)
    requires |x| == 1 && 'a' <= x[0] <= 'z'
    ensures Lower(Strip(x)) == x
  {
    StripTrimmed(x);
  }

  /** The one-letter answers read as themselves. */
  lemma PlainAnswers()
    ensures Lower(Strip("d")) == "d" && Lower(Strip("s")) == "s"
    ensures Lower(Strip("v")) == "v" && Lower(Strip("q")) == "q"
  {
    LetterAnswer("d");
    LetterAnswer("s");
    LetterAnswer("v");
    LetterAnswer("q");
  }

  /** One step of answering `d`: the presented hit is cancelled and logged, and the scan goes on. */
  lemma DeleteStep(h: Hit, rest: seq<Option<Hit>>, safe: set<string>, inputs: seq<string>)
    requires |inputs| > 0 && Lower(Strip(inputs[0])) == "d"
    ensures Decide(h, rest, safe, inputs)
            == Prepend([Cancel(h.id), Log(h.id, h.path)], ScanArticles(rest, safe, false, inputs[1..]))
  {
  }

  /** One step of answering `s`: the presented hit is saved as safe, and the scan goes on. */
  lemma SaveStep(h: Hit, rest: seq<Option<Hit>>, safe: set<string>, inputs: seq<string>)
    requires |inputs| > 0 && Lower(Strip(inputs[0])) == "s"
    ensures Decide(h, rest, safe, inputs)
            == Prepend([SaveSafe(h.id)], ScanArticles(rest, safe, false, inputs[1..]))
  {
  }

  /**
   * One step of answering `v`: the article is viewed, the next line (the
   * "Press Enter" prompt) is consumed, the summary is shown again, and the
   * prompt repeats.
   */
  lemma ViewStep(h: Hit, rest: seq<Option<Hit>>, safe: set<string>, inputs: seq<string>)
    requires |inputs| >= 2 && Lower(Strip(inputs[0])) == "v"
    ensures Decide(h, rest, safe, inputs)
            == Prepend([View(h.path), ShowHit(h)], Decide(h, rest, safe, inputs[2..]))
  {
  }

  /** Answering `v` when no further line comes views the article and ends the scan as interrupted. */
  lemma ViewAtEndOfInput(h: Hit, rest: seq<Option<Hit>>, safe: set<string>, inputs: seq<string>)
    requires |inputs| == 1 && Lower(Strip(inputs[0])) == "v"
    ensures Decide(h, rest, safe, inputs) == Scan([View(h.path)], Interrupted)
  {
  }

  /** Answering `d` to every prompt cancels and logs every candidate, in order. */
  lemma {:induction false} AnsweringDeleteCancelsEveryCandidate(os: seq<Option<Hit>>, safe: set<string>)
    ensures var cs := Candidates(os, safe);
            ScanArticles(os, safe, false, Repeat("d", |cs|)) == Scan(DeleteAll(cs), Completed)
    decreases |os|
  {
    if |os| > 0 {
      AnsweringDeleteCancelsEveryCandidate(os[1..], safe);
      if os[0].Some? && os[0].value.id !in safe {
        DeleteHead(os, safe);
      } else {
        assert Candidates(os, safe) == Candidates(os[1..], safe);
      }
    }
  }

  /** The inductive step of `AnsweringDeleteCancelsEveryCandidate` when the first outcome is presented. */
  lemma DeleteHead(os: seq<Option<Hit>>, safe: set<string>)
    requires |os| > 0 && os[0].Some? && os[0].value.id !in safe
    requires var tail := Candidates(os[1..], safe);
             ScanArticles(os[1..], safe, false, Repeat("d", |tail|)) == Scan(DeleteAll(tail), Completed)
    ensures var cs := Candidates(os, safe);
            ScanArticles(os, safe, false, Repeat("d", |cs|)) == Scan(DeleteAll(cs), Completed)
  {
    var h := os[0].value;
    var tail := Candidates(os[1..], safe);
    var inputs := Repeat("d", 1 + |tail|);
    var decided := Decide(h, os[1..], safe, inputs);
    assert Candidates(os, safe) == [h] + tail by { PresentedFirst(os, safe); }
    assert ScanArticles(os, safe, false, inputs) == Prepend([ShowHit(h)], decided) by {
      PresentedScan(os, safe, inputs);
    }
    assert decided == Prepend([Cancel(h.id), Log(h.id, h.path)], Scan(DeleteAll(tail), Completed)) by {
      assert inputs[1..] == Repeat("d", |tail|);
      LetterAnswer("d");
      DeleteStep(h, os[1..], safe, inputs);
    }
    DeleteChain(ScanArticles(os, safe, false, inputs), decided, h, tail);
  }

  /** Showing `h`, then cancelling and logging it, then deleting `tail`, is deleting `[h] + tail`. */
  lemma DeleteChain(whole: Scan, decided: Scan, h: Hit, tail: seq<Hit>)
    requires whole == Prepend([ShowHit(h)], decided)
    requires decided == Prepend([Cancel(h.id), Log(h.id, h.path)], Scan(DeleteAll(tail), Completed))
    ensures whole == Scan(DeleteAll([h] + tail), Completed)
  {
    assert DeleteAll([h] + tail) == [ShowHit(h)] + ([Cancel(h.id), Log(h.id, h.path)] + DeleteAll(tail));
  }

  /** A presented first outcome heads the candidate list. */
  lemma PresentedFirst(os: seq<Option<Hit>>, safe: set<string>)
    requires |os| > 0 && os[0].Some? && os[0].value.id !in safe
    ensures Candidates(os, safe) == [os[0].value] + Candidates(os[1..], safe)
  {
  }

  /** A presented first outcome is shown, then decided on. */
  lemma PresentedScan(os: seq<Option<Hit>>, safe: set<string>, inputs: seq<string>)
    requires |os| > 0 && os[0].Some? && os[0].value.id !in safe
    ensures ScanArticles(os, safe, false, inputs)
            == Prepend([ShowHit(os[0].value)], Decide(os[0].value, os[1..], safe, inputs))
  {
  }

  /** Answering `q` at the first prompt ends the scan right after the first summary. */
  lemma {:induction false} QuitEndsScan(os: seq<Option<Hit>>, safe: set<string>, inputs: seq<string>)
    requires |Candidates(os, safe)| > 0
    requires |inputs| > 0 && Lower(Strip(inputs[0])) == "q"
    ensures ScanArticles(os, safe, false, inputs) == Scan([ShowHit(Candidates(os, safe)[0])], Quit)
    decreases |os|
  {
    match os[0]
    case None =>
      QuitEndsScan(os[1..], safe, inputs);
    case Some(h) =>
      if h.id in safe {
        QuitEndsScan(os[1..], safe, inputs);
      }
  }

  /** An answer the prompt does not recognise. */
  predicate Unrecognised(answer: string) {
    Lower(Strip(answer)) !in {"d", "s", "v", "q"}
  }

  /** An unrecognised answer is dropped and the prompt repeats. */
  lemma RePrompt(h: Hit, rest: seq<Option<Hit>>, safe: set<string>, inputs: seq<string>)
    requires |inputs| > 0 && Unrecognised(inputs[0])
    ensures Decide(h, rest, safe, inputs) == Decide(h, rest, safe, inputs[1..])
  {
  }

  /** Unrecognised answers only re-prompt: they leave no trace. */
  lemma {:induction false} UnrecognisedAnswersIgnored(h: Hit, rest: seq<Option<Hit>>, safe: set<string>,
                                                      junk: seq<string>, inputs: seq<string>)
    requires forall i :: 0 <= i < |junk| ==> Unrecognised(junk[i])
    ensures Decide(h, rest, safe, junk + inputs) == Decide(h, rest, safe, inputs)
    decreases |junk|
  {
    if |junk| == 0 {
      assert junk + inputs == inputs;
    } else {
      var all := junk + inputs;
      assert all[1..] == junk[1..] + inputs;
      assert Decide(h, rest, safe, all) == Decide(h, rest, safe, all[1..]) by {
        assert all[0] == junk[0];
        RePrompt(h, rest, safe, all);
      }
      UnrecognisedAnswersIgnored(h, rest, safe, junk[1..], inputs);
    }
  }

  /**
   * Marking a message safe does not protect a later copy in the same scan:
   * the in-memory safe set is the one loaded at start.
   */
  lemma SkipDoesNotHideLaterCopy(h1: Hit, h2: Hit, safe: set<string>)
    requires h1.id == h2.id && h1.id !in safe
    ensures ScanArticles([Some(h1), Some(h2)], safe, false, ["s", "d"]).effects
            == [ShowHit(h1), SaveSafe(h1.id), ShowHit(h2), Cancel(h2.id), Log(h2.id, h2.path)]
  {
    var os := [Some(h1), Some(h2)];
    var tail := [Some(h2)];
    assert os[1..] == tail && tail[1..] == [];
    assert ["s", "d"][1..] == ["d"] && ["d"][1..] == [];
    PlainAnswers();
    PresentedScan(os, safe, ["s", "d"]);
    SaveStep(h1, tail, safe, ["s", "d"]);
    PresentedScan(tail, safe, ["d"]);
    DeleteStep(h2, [], safe, ["d"]);
    SkipChain(ScanArticles(os, safe, false, ["s", "d"]), Decide(h1, tail, safe, ["s", "d"]),
              ScanArticles(tail, safe, false, ["d"]), Decide(h2, [], safe, ["d"]), h1, h2);
  }

  /** The effects of show, save, show, cancel and log, put together. */
  lemma SkipChain(whole: Scan, first: Scan, second: Scan, last: Scan, h1: Hit, h2: Hit)
    requires whole == Prepend([ShowHit(h1)], first)
    requires first == Prepend([SaveSafe(h1.id)], second)
    requires second == Prepend([ShowHit(h2)], last)
    requires last == Prepend([Cancel(h2.id), Log(h2.id, h2.path)], Scan([], Completed))
    ensures whole.effects == [ShowHit(h1), SaveSafe(h1.id), ShowHit(h2), Cancel(h2.id), Log(h2.id, h2.path)]
  {
  }

  /**
   * A rule with empty phrase text (from `""` or a lone `"`) listed first
   * matches every haystack, so it is always reported; its text is empty, so
   * the caller then drops the article: no article is ever a hit.
   */
  lemma EmptyPhraseFirstMatchesNothing(a: Article, rules: seq<Rule>, cfg: Config)
    requires |rules| > 0 && rules[0] == Phrase("")
    ensures Inspect(a, rules, cfg) == None
  {
    match a.content
    case None =>
    case Some(lines) =>
      match ExtractMessageId(lines)
      case None =>
      case Some(id) =>
        var subject := ExtractHeader(lines, "Subject");
        var bodytext := Join(" ", ExtractBody(lines));
        assert MatchKeywords(bodytext, rules, cfg.subjectOnly, cfg.bodyOnly, subject) == Some("") by {
          var h := Haystack(cfg.subjectOnly, cfg.bodyOnly, subject, bodytext);
          assert OccursAt(h, "", 0);
          assert FirstMatch(rules, h) == Some(0);
        }
  }

  // ---------------------------------------------------------------------
  // Properties of the batch loop

  /** The hits whose identifier is not in `safe`. */
  function Unsafe(hs: seq<Hit>, safe: set<string>): (r: seq<Hit>)
    ensures |r| <= |hs|
  {
    if |hs| == 0 then []
    else if hs[0].id in safe then Unsafe(hs[1..], safe)
    else [hs[0]] + Unsafe(hs[1..], safe)
  }

  /**
   * The interactive session presents the batch session's hits minus the safe
   * ones; with an empty safe set both handle exactly the same messages.
   */
  lemma {:induction false} CandidatesAreUnsafeHits(os: seq<Option<Hit>>, safe: set<string>)
    ensures Candidates(os, safe) == Unsafe(Hits(os), safe)
    ensures Candidates(os, {}) == Hits(os)
  {
    if |os| > 0 {
      CandidatesAreUnsafeHits(os[1..], safe);
    }
  }

  /** What a non-dry batch run does to each hit. */
  function CancelAll(hs: seq<Hit>): (es: seq<Effect>)
    ensures |es| == 2 * |hs|
  {
    if |hs| == 0 then [] else [Cancel(hs[0].id), Log(hs[0].id, hs[0].path)] + CancelAll(hs[1..])
  }

  /** Outside a dry run the batch loop cancels and logs every hit, in spool order. */
  lemma {:induction false} BatchCancelsEveryHit(os: seq<Option<Hit>>)
    ensures BatchScan(os, false).effects == CancelAll(Hits(os))
  {
    if |os| > 0 {
      BatchCancelsEveryHit(os[1..]);
    }
  }
}
