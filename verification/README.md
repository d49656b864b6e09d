# cleanspool in Dafny

This project models the logic of `cleanspool.py`, a keyword-driven tool that moderates an
INN news spool. The model covers:

- **Keyword rules** (`load_keywords`). An inline comma-separated list or the lines of
  `keywords.txt` become an ordered list of word and phrase rules.
- **Matching** (`match_keywords`). The first rule, in list order, that matches the
  lowercased subject, body or both wins. A phrase matches as a substring. A word must match
  between two regex `\b` boundaries.
- **Article fields** (`extract_header`, `extract_message_id`, `extract_body`), computed
  over the raw lines of an article.
- **The persisted files.**
  - `dedupe_file` sorts the stripped non-empty lines and drops duplicates.
  - `load_safe_list` keeps the `<...>` lines.
  - `save_safe_message` and the deletion log append lines.
  - `run_export_spamlog` writes the first `<[^>]+>` token of each log line, each token
    once, in first-seen order, and reports their number.
- **The two sessions** (`run_interactive`, `run_batch_delete_args`). Each is a function
  from the already-read articles (and, for the interactive session, the operator's input
  lines) to a trace of effects:
  - throttle the server;
  - show a summary;
  - view an article;
  - cancel an article;
  - log a deletion;
  - save an id as safe;
  - resume the server;
  - compact a file.

  A separate module replays a trace against the two files it writes.

Modules, one per file:

| file | module | models |
|---|---|---|
| `wrappers.dfy` | `Wrappers` | `Option` |
| `text.dfy` | `Text` | Python's `str.strip`, ASCII `lower`, `split(',')`, `join`, and the code-point order `sorted` uses |
| `keywords.dfy` | `Keywords` | `load_keywords`, and a renderer that is its inverse |
| `matcher.dfy` | `Matcher` | `match_keywords`, the haystack, and `\b` |
| `message.dfy` | `Message` | `extract_header`, `extract_message_id`, `extract_body` |
| `persist.dfy` | `Persist` | `dedupe_file`, `load_safe_list`, the safe and log lines, `run_export_spamlog` |
| `session.dfy` | `Session` | `run_interactive` and `run_batch_delete_args` as effect traces |
| `replay.dfy` | `Replay` | what a trace does to `cleanspool.safe` and `cleanspool.log` |

How Python is represented:

- **Strings** are sequences of code points.
- **Whitespace.** `strip()` removes exactly the characters for which `str.isspace` holds.
- **Files** are sequences of lines as Python reads them, each line keeping its `"\n"`.
  Whether a file exists is an `Option`.
- **Appending.** An append-mode write continues the last line when that line has no line
  break yet.
- **The clock.** `time.ctime()` is a parameter: one string per trace position.
- **Operator input** is a sequence of lines. When it runs out, `input()` would raise
  `EOFError`. The scan then ends with `Interrupted`, and the `finally` clean-up still runs.

Where the model follows the code rather than its documentation:

- **Empty rule text is possible.** The inline item `""` and the file line `"` both give an
  empty phrase. An empty phrase matches every haystack. Because `if not matched` treats
  `""` as no match, a rule list that starts with it makes every article a non-match
  (`Session.EmptyPhraseFirstMatchesNothing`).
- **Viewing reads an extra line.** Answering `v` consumes one more input line, the "Press
  Enter" prompt of `view_full_article`.
- **The safe set is fixed for the session.** The set loaded at the start is never updated
  during the session. Choosing `s` only appends to the file. A later copy of the same
  article is therefore still shown in the same session (`Session.SkipDoesNotHideLaterCopy`).

## Model

| member | source | states |
|---|---|---|
| Text.IsSpace | cleanspool.py:52 | the characters `strip()` removes include space, tab and both line-break characters, and no printable ASCII character |
| Text.Strip | cleanspool.py:52 | the stripped text neither begins nor ends with whitespace and fits after the leading whitespace |
| Text.StripIsSlice | cleanspool.py:52 | the stripped text is the contiguous slice of the input that starts after the leading whitespace |
| Text.LeadingSpacesAt | cleanspool.py:52 | the leading whitespace ends at the first non-whitespace position, whichever such position is named |
| Text.TrailingStartAt | cleanspool.py:52 | the trailing whitespace starts right after the last non-whitespace character |
| Text.StripKeeps | cleanspool.py:52 | every non-whitespace character survives `strip()` at its shifted position |
| Text.StripEmpty | cleanspool.py:53 | `strip()` gives "" exactly when every character is whitespace |
| Text.StripIdempotent | cleanspool.py:52 | stripping twice is stripping once |
| Text.StripTrailingSpace | cleanspool.py:95 | a trailing line break does not change the stripped line |
| Text.StripTrailingSpaces | cleanspool.py:115 | any run of trailing whitespace does not change the stripped text |
| Text.Lower | cleanspool.py:56 | lowercasing keeps the length and maps each character on its own |
| Text.LowerIsLower | cleanspool.py:56 | lowercased text is left unchanged by lowercasing again |
| Text.Split | cleanspool.py:51 | `split(',')` gives at least one part, no part contains the separator, and joining the parts with the separator gives back the input |
| Text.SplitJoin | cleanspool.py:51 | splitting the join of separator-free parts gives back the parts |
| Text.JoinEnds | cleanspool.py:189 | the joined body text starts with the first line, then the separator when there is a second line, and ends with the last line |
| Text.LessTransitive | cleanspool.py:107 | the string order `sorted` uses is transitive |
| Text.LessTotal | cleanspool.py:107 | any two different strings are ordered one way or the other |
| Text.LessAsymmetric | cleanspool.py:107 | the string order is asymmetric |
| Keywords.InlineRule | cleanspool.py:55-58 | a non-blank inline item is a phrase exactly when it is wrapped in double or in single quotes; a word's text is the whole item lowercased, a phrase's text is the item without its first and last characters, lowercased |
| Keywords.FileRule | cleanspool.py:66-69 | a non-blank file line is a phrase exactly when it is wrapped in double quotes; a word's text is the whole line lowercased, a phrase's text is the line without its first and last characters, lowercased |
| Keywords.InlineItem | cleanspool.py:52-58 | one inline item gives at most one rule, with lowercase text; it gives none exactly when it is blank once stripped; otherwise the rule is the one `InlineRule` makes of the stripped item, a phrase exactly when that item is wrapped in double or single quotes |
| Keywords.FileItem | cleanspool.py:63-69 | one keyword-file line gives at most one rule, with lowercase text; it gives none exactly when the stripped line is blank or starts with `#`; otherwise the rule is the one `FileRule` makes of the stripped line, a phrase exactly when that line is wrapped in double quotes |
| Keywords.ParseInlineItems | cleanspool.py:50-58 | comma-free items joined by commas parse item by item, in order |
| Keywords.LoadKeywords | cleanspool.py:47-72 | a non-empty inline list overrides the file; with no list and no file the rules are empty; with no list they come from the file; all rule text is lowercase |
| Keywords.InlineRulesAppend | cleanspool.py:51-58 | rules keep the order of the items that produce them |
| Keywords.FileRulesAppend | cleanspool.py:62-69 | rules keep the order of the file lines that produce them |
| Keywords.InlineRoundTrip | cleanspool.py:50-59 | rendering any non-empty list of representable rules as an inline list and loading it gives back exactly those rules |
| Keywords.FileRoundTrip | cleanspool.py:60-72 | rendering representable rules (lowercase, free of `\n` and `\r`, words neither quoted nor starting with `#`) one per line and loading the file gives back exactly those rules |
| Keywords.InlineSingleQuoteIsPhrase | cleanspool.py:55-56 | in the inline list, an item wrapped in single quotes is a phrase with its quotes removed |
| Keywords.HashIsWordOnlyInline | cleanspool.py:53-58 | an item starting with `#` is an ordinary word rule in the inline list, while the same text as a keyword-file line is a comment and gives no rule |
| Keywords.FileSingleQuoteIsWord | cleanspool.py:66-69 | in the file, a line wrapped in single quotes is a word rule with its quotes kept |
| Matcher.Haystack | cleanspool.py:75-81 | the haystack is lowercase; `--subject-only` searches the lowercased subject alone and wins over `--body-only`; `--body-only` alone searches the lowercased body; otherwise the lowercased subject, one space and the lowercased body |
| Matcher.HaystackScope | cleanspool.py:76-79 | with `--subject-only` the body and `--body-only` do not matter; with only `--body-only` the subject does not matter |
| Matcher.BoundaryAtEnds | cleanspool.py:86 | at the start and at the end of the haystack `\b` holds exactly when the adjacent character is a word character |
| Matcher.WordAtBetweenNonWord | cleanspool.py:86 | a word that starts and ends with word characters matches wherever it occurs between non-word characters or the ends of the haystack |
| Matcher.FirstMatch | cleanspool.py:83-88 | it finds no rule exactly when no rule matches; otherwise it finds a matching rule and no earlier rule matches |
| Matcher.MatchKeywords | cleanspool.py:74-88 | the result is None exactly when no rule matches the haystack chosen by scope; otherwise it is the text of the earliest matching rule |
| Matcher.SearchPhrase | cleanspool.py:84 | the loop finds a phrase exactly when it occurs as a substring |
| Matcher.SearchWord | cleanspool.py:86 | the loop finds a word exactly when it occurs between two `\b` boundaries |
| Matcher.MatchRules | cleanspool.py:83-88 | the loop over the rules returns what `MatchKeywords` specifies: None when nothing matches, else the earliest matching rule's text |
| Matcher.WordImpliesPhrase | cleanspool.py:84-86 | a word match is also a substring match |
| Matcher.FirstMatchAppend | cleanspool.py:83-88 | rules appended after a matching rule never change the result |
| Matcher.BoundaryPrefix | cleanspool.py:81 | joining the body after a space does not change `\b` positions inside the subject |
| Matcher.BoundarySuffix | cleanspool.py:81 | prefixing the subject and a space does not change `\b` positions inside the body |
| Matcher.SubjectMatchSurvivesBoth | cleanspool.py:75-81 | a rule matching the subject alone also matches in the combined haystack |
| Matcher.BodyMatchSurvivesBoth | cleanspool.py:75-81 | a rule matching the body alone also matches in the combined haystack |
| Matcher.NarrowScopeNoNewMatch | cleanspool.py:75-81 | when nothing matches the combined haystack, nothing matches with `--subject-only` or `--body-only` |
| Matcher.AbsentFirstChar | cleanspool.py:84-86 | a rule whose first character does not occur in the haystack cannot match |
| Matcher.PhraseFoundWhenWordAbsent | cleanspool.py:83-87 | with rules `spam` then `"buy now"` and subject "Re: buy now offer", the result is "buy now" |
| Message.FieldLineHasColon | cleanspool.py:114-115 | a line that passes the prefix test has a colon to split on |
| Message.FieldValue | cleanspool.py:115 | the value after the first colon is stripped |
| Message.FieldValueOfLine | cleanspool.py:115 | for a name without a colon and without leading whitespace, the value read from `name:v` is `v` stripped, whatever colons or whitespace `v` holds |
| Message.FindField | cleanspool.py:113-114 | it finds no line exactly when no line has the prefix; otherwise it finds the first such line |
| Message.ExtractHeader | cleanspool.py:112-116 | "(missing)" when no line, body included, starts case-insensitively with `Name:`; otherwise the stripped value of the first such line |
| Message.ExtractMessageId | cleanspool.py:118-122 | None exactly when no line starts with `message-id:`; otherwise the stripped value of the first such line |
| Message.MessageIdAgreesWithHeader | cleanspool.py:112-122 | the message id is the `Message-ID` header, and it is absent exactly when the header is "(missing)" |
| Message.HeaderFoundEarly | cleanspool.py:113-115 | lines after the first matching line never change the header |
| Message.HeaderFoundInBody | cleanspool.py:113-115 | the header search continues into the body when the head lacks the field |
| Message.ExtractBody | cleanspool.py:124-132 | the body is exactly the lines after the first whitespace-only line, verbatim, or empty when there is none |
| Message.BodyOfComposed | cleanspool.py:124-132 | head lines, then a blank separator, then any body: the body is recovered exactly |
| Persist.Insert | cleanspool.py:107 | inserting into a strictly sorted list keeps it strictly sorted and adds exactly the new element |
| Persist.SortedUnique | cleanspool.py:107 | two strictly sorted lists with the same elements are equal |
| Persist.Compact | cleanspool.py:107 | the compacted entries are strictly sorted, and they are exactly the non-empty stripped lines |
| Persist.SortedDistinct | cleanspool.py:107 | a strictly sorted list has no duplicates |
| Persist.CompactIdempotent | cleanspool.py:104-110 | compacting compacted entries changes nothing |
| Persist.CompactThenAppend | cleanspool.py:104-110 | compacting, appending more lines and compacting again equals compacting everything at once |
| Persist.CompactShorter | cleanspool.py:107 | compaction never adds entries |
| Persist.DedupeFile | cleanspool.py:104-110 | the rewritten file is no longer than before; every line is non-empty once stripped and ends with a line break; lines are in strictly increasing order; its lines strip to exactly the non-blank stripped lines of the old file |
| Persist.CompactLines | cleanspool.py:104-110 | the compacted entries written one per line are no more than the input lines, non-empty once stripped, terminated, in strictly increasing order, and strip to exactly the non-blank stripped input lines |
| Persist.DedupeFileIdempotent | cleanspool.py:104-110 | running `dedupe_file` twice leaves the file as one run does |
| Persist.SafeLine | cleanspool.py:100-102 | the line `save_safe_message` writes ends with a line break and strips to what the id strips to |
| Persist.SafeIds | cleanspool.py:94-97 | an id is safe exactly when some line strips to it and it is shaped `<...>` |
| Persist.LoadSafeList | cleanspool.py:90-98 | a missing safe file gives the empty set; otherwise the result is as for `SafeIds` |
| Persist.SafeIdsAppendLine | cleanspool.py:100-102 | one more line adds exactly its stripped text to the loaded set, when that text is shaped `<...>` |
| Persist.SaveThenLoad | cleanspool.py:100-102 | appending a stripped id adds it to the loaded set if it is shaped `<...>`, and adds nothing else |
| Persist.HasStrippedAppend | cleanspool.py:94-97 | a line of a joined file strips to some text exactly when a line of one of the parts does |
| Persist.SafeIdsSurviveDedupe | cleanspool.py:90-110 | compacting the safe file does not change the loaded set |
| Persist.TokenAt | cleanspool.py:279-280 | the token is a `<[^>]+>` match found at that position |
| Persist.TokenIndex | cleanspool.py:279 | it gives the leftmost position where `<[^>]+>` matches, or None when there is none |
| Persist.FirstToken | cleanspool.py:279-281 | None exactly when the line has no `<[^>]+>` match; otherwise the leftmost match |
| Persist.FirstTokenAfter | cleanspool.py:279-281 | a token preceded by text without `<` is the line's first match |
| Persist.LogLine | cleanspool.py:206 | the interactive log entry ends with a line break |
| Persist.BatchLogTextAsWritten | cleanspool.py:256 | the batch log entry, as written, does not end with a line break |
| Persist.LoggedIdIsExported | cleanspool.py:206 | for a `<...>` id, the export finds that id on its own interactive log line |
| Persist.DistinctFirst | cleanspool.py:277-284 | the written tokens are pairwise distinct, and they are exactly the tokens found |
| Persist.DistinctFirstOrder | cleanspool.py:277-284 | the written tokens keep the order in which each first appears |
| Persist.OrderAppend | cleanspool.py:277-284 | one more log line keeps the first-seen order of the written tokens |
| Persist.ExportIds | cleanspool.py:273-285 | the loop with its `seen` set writes `DistinctFirst` of the tokens: distinct, complete, in first-seen order; the reported count is the number written |
| Persist.DistinctCardinality | cleanspool.py:285 | the size of `seen` equals the number of lines written |
| Persist.ExportSpamlog | cleanspool.py:268-287 | a missing log writes nothing and reports 0; otherwise one line per exported id |
| Persist.ExportIsStable | cleanspool.py:273-285 | exporting an export's output gives the same ids again |
| Persist.TokensOfTokenLines | cleanspool.py:279-283 | a file of id lines yields exactly those ids |
| Persist.TokensOfLinesLast | cleanspool.py:279-283 | the last id line of a file contributes its id after those of the earlier lines |
| Session.Inspect | cleanspool.py:178-193 | an article is a hit exactly when it was read, its message id is present and non-empty, and the keyword reported for its subject and body is present and non-empty; the hit then carries that id, the path and that keyword |
| Session.Candidates | cleanspool.py:185 | every presented hit has an id outside the safe set loaded at start |
| Session.ScanArticles | cleanspool.py:176-221 | the scan contains no throttle, resume or compaction; a dry run shows only and completes; every summary is a candidate; every action is on a candidate's id |
| Session.Decide | cleanspool.py:201-221 | the prompt loop acts only on the presented hit or on later candidates |
| Session.OutcomeIds | cleanspool.py:184-185 | every hit's id is non-empty and stripped |
| Session.CandidateIdsUsable | cleanspool.py:185 | presented ids are outside the safe set, non-empty and stripped |
| Session.Enclose | cleanspool.py:174-225 | throttle first, the `finally` clean-up last, and exactly the scan's effects between |
| Session.RunInteractive | cleanspool.py:171-225 | throttle first and resume, compact safe, compact log last, however the scan ends; between them exactly the scan of the loaded rules and safe set, which also gives the ending; a dry run completes without actions; every shown or acted-on id is non-empty, stripped and outside the safe set loaded at start |
| Session.CancelCountAppend | cleanspool.py:258 | the number of cancels in a joined trace is the sum of the two counts |
| Session.BatchScan | cleanspool.py:229-258 | `matches` counts every hit, whatever the safe list says; `count` equals the number of cancels; a dry run has no effects and count 0 |
| Session.RunBatch | cleanspool.py:227-264 | throttle first and resume last; no compaction, no safe-list write and no summary; a dry run does nothing else; otherwise every hit is cancelled and logged in spool order in between; the counters as for `BatchScan` |
| Session.EncloseBatch | cleanspool.py:229-264 | the batch loop's effects, exactly, between throttle first and resume last, with no compaction, no safe-list write and no summary, and the counters are kept |
| Session.DryRunShowsEveryCandidate | cleanspool.py:197-199 | an interactive dry run shows every candidate once, in order, reads no input, and completes |
| Session.AnsweringDeleteCancelsEveryCandidate | cleanspool.py:201-208 | answering `d` at every prompt shows, cancels and logs each candidate in order, and completes |
| Session.DeleteStep | cleanspool.py:201-208 | an answer that reads as `d` cancels and logs the presented hit, then the scan goes on with the next article |
| Session.SaveStep | cleanspool.py:201-212 | an answer that reads as `s` saves the presented hit's id as safe, then the scan goes on with the next article |
| Session.ViewStep | cleanspool.py:213-216 | an answer that reads as `v` views the article, consumes the next line, shows the summary again and prompts again |
| Session.ViewAtEndOfInput | cleanspool.py:213-214 | an answer that reads as `v` with no further line views the article and ends the scan as interrupted |
| Session.QuitEndsScan | cleanspool.py:217-219 | `q` at the first prompt ends the scan right after the first summary |
| Session.UnrecognisedAnswersIgnored | cleanspool.py:220-221 | invalid answers leave no trace: the loop behaves as if they had not been typed |
| Session.RePrompt | cleanspool.py:220-221 | one invalid answer only re-prompts: the loop continues with the next input line |
| Session.SkipDoesNotHideLaterCopy | cleanspool.py:173-212 | after `s` on one article, a later article with the same id is still shown and can be deleted in the same session |
| Session.EmptyPhraseFirstMatchesNothing | cleanspool.py:192-193 | a rule list starting with an empty phrase makes every article a non-hit |
| Session.CandidatesAreUnsafeHits | cleanspool.py:185 | candidates are the hits outside the safe set, in order; with an empty safe set they are all the hits |
| Session.BatchCancelsEveryHit | cleanspool.py:239-258 | outside a dry run, the batch cancels and logs every hit in spool order, safe or not |
| Replay.AppendText | cleanspool.py:101-102 | on a file whose lines all end with a line break, an append adds a new last line, and appending a terminated line keeps that property |
| Replay.DedupeStore | cleanspool.py:104-105 | a missing file stays missing; an existing one becomes `DedupeFile` of itself |
| Replay.Apply | cleanspool.py:100-110 | an effect changes the safe file only when it saves or compacts it, and the log only when it logs or compacts it |
| Replay.SavedIds | cleanspool.py:209-210 | the ids a trace saves that are shaped `<...>` |
| Replay.PersistedUntouched | cleanspool.py:100-110 | a trace that neither saves nor compacts the safe file leaves it as it was; one that neither logs nor compacts the log leaves the log as it was |
| Replay.CleanupCompacts | cleanspool.py:222-225 | a trace that ends with the interactive clean-up leaves both files compacted |
| Replay.SessionLeavesFilesCompacted | cleanspool.py:171-225 | after any interactive session, however it ends, both files are left as `dedupe_file` would leave them |
| Replay.ApplySafeIds | cleanspool.py:90-110 | one effect adds to the loaded safe set exactly the `<...>` id it saves, if any |
| Replay.SavedIdsLast | cleanspool.py:209-210 | the ids a trace saves are those of all but its last effect plus the one the last effect saves |
| Replay.AppendSafeIds | cleanspool.py:100-102 | appending a stripped id's line to a terminated safe file adds it to the loaded set when shaped `<...>` and keeps the file terminated |
| Replay.PersistKeepsSafeIds | cleanspool.py:90-110 | after replaying a trace, the loaded safe set is the old set plus the `<...>` ids the trace saved |
| Replay.PersistLast | cleanspool.py:90-110 | if the safe list was right before the last effect of a trace, it is right after it |
| Replay.SavedIdsSkippedNextSession | cleanspool.py:173-210 | when the safe file's lines all end with line breaks, an id shaped `<...>` that one session saves as safe is neither shown nor acted on in the next session that loads the resulting safe file |
| Replay.BatchLogLosesSecondId | cleanspool.py:256 | as written, two batch log entries on a fresh log form one line, and the export finds only the first id |
| Replay.AppendToUnterminated | cleanspool.py:255-256 | two appends to a fresh file, the first without a line break, leave a single line |
| Replay.AsWrittenFirstToken | cleanspool.py:256 | the deleted id is the first `<...>` token of a batch log entry, whatever text follows it |
| Replay.LoggedEntryIsExported | cleanspool.py:206 | appending a log entry that ends with a line break adds its id to the export and keeps all earlier exported ids |

## Left out

- The `ctlinnd` calls (`throttle_inn`, `resume_inn`, `cancel_article`) are only effects in the trace. Their output and exit status are only printed.
- Terminal output is not modelled: ANSI colours, `clear_screen`, `spin`, and what `show_summary` and `view_full_article` print. A summary is a `Show` effect and a view is a `View` effect.
- `walk_articles` (glob and directory traversal) is not modelled. The session takes the sequence of articles in walk order. An article that could not be opened is `None`.
- Real file I/O and decoding (`errors="ignore"`, universal newlines) are not modelled. A text with an interior line break is treated as a single line when appended.
- The printed counters and messages of the sessions are left out. The batch counters are returned as numbers.
- `argparse`, `main` and the `--lines` option are left out. The `--delete-from` branch calls `run_batch_delete`, which the script never defines.
- Text.Lower: lowercases ASCII letters only, because Python's Unicode case mapping is not modelled.
- Matcher.IsWordChar: `\b` uses ASCII letters, digits and `_` as word characters, because the Unicode notion of a word character is not modelled.
- Text.Less: compares code points, as `sorted` does on `str`. Locale collation is not involved.
- Replay.PersistKeepsSafeIds: requires every line of the safe file to end with a line break. A hand-edited file whose last line lacks one makes the next append merge two ids into one line, and the model's append does exactly that.
- Keywords.FileRoundTrip: covers only rule text without `\n` and `\r`, because reading the keyword file splits lines there and such a rule cannot be written on one line.
- Session.RunBatch: logs deletions with the `Log` effect, which writes the entry with a line break. What the script writes as-is is stated separately under Findings.

## Findings

| source | as written | input that shows it | evidently intended | confidence | as-written member | corrected member |
|---|---|---|---|---|---|---|
| cleanspool.py:256 | each batch log entry ends with a backslash and `n` instead of a line break, so successive entries run together on one line | two batch deletions, `<a@x>` then `<b@y>`, on a fresh log: the log is one line, and the export writes only `<a@x>` | end each entry with a line break, as the interactive entry at line 206 does | high; derived from the code, not executed | Replay.BatchLogLosesSecondId | Replay.LoggedEntryIsExported |
