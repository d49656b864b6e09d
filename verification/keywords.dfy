/**
 * Keyword rules (`load_keywords`): an ordered list of word and phrase rules,
 * read either from a comma-separated override or from the lines of the
 * keyword file.
 */
module Keywords {
  import opened Wrappers
  import opened Text

  /** A rule and its lower-cased text. */
  datatype Rule = Word(text: string) | Phrase(text: string)

  /** `s` starts and ends with the quote character `q` (a lone `q` does both). */
  predicate Quoted(s: string, q: char) {
    |s| >= 1 && s[0] == q && s[|s| - 1] == q
  }

  /** The text without its first and last characters (empty for a lone character). */
  function Unquote(s: string): string
    requires |s| >= 1
  {
    if |s| >= 2 then s[1..|s| - 1] else ""
  }

  /** One stripped, non-blank item of the inline list: either quote makes a phrase. */
  function InlineRule(item: string): (r: Rule)
    requires item != ""
    ensures IsLower(r.text)
    ensures r.Phrase? <==> Quoted(item, '"') || Quoted(item, '\'')
    ensures r.Word? ==> r.text == Lower(item)
    ensures r.Phrase? ==> r.text == Lower(Unquote(item))
    ensures r.Word? ==> |r.text| == |item|
    ensures r.Phrase? && |item| >= 2 ==> |r.text| == |item| - 2
  {
    LowerIsLower(item);
    LowerIsLower(Unquote(item));
    if Quoted(item, '"') || Quoted(item, '\'') then Phrase(Lower(Unquote(item)))
    else Word(Lower(item))
  }

  /** One stripped, non-blank, non-comment file line: only double quotes make a phrase. */
  function FileRule(line: string): (r: Rule)
    requires line != ""
    ensures IsLower(r.text)
    ensures r.Phrase? <==> Quoted(line, '"')
    ensures r.Word? ==> r.text == Lower(line)
    ensures r.Phrase? ==> r.text == Lower(Unquote(line))
    ensures r.Word? ==> |r.text| == |line|
    ensures r.Phrase? && |line| >= 2 ==> |r.text| == |line| - 2
  {
    LowerIsLower(line);
    LowerIsLower(Unquote(line));
    if Quoted(line, '"') then Phrase(Lower(Unquote(line))) else Word(Lower(line))
  }

  /** The rule contributed by one comma-separated item: none when it is blank. */
  function InlineItem(item: string): (rs: seq<Rule>)
    ensures |rs| <= 1
    ensures forall r :: r in rs ==> IsLower(r.text)
    ensures rs == [] <==> Strip(item) == ""
    ensures rs != [] ==> (rs[0].Phrase? <==> Quoted(Strip(item), '"') || Quoted(Strip(item), '\''))
    ensures rs != [] ==> rs == [InlineRule(Strip(item))]
  {
    var t := Strip(item);
    if t == "" then []
    else
      LowerIsLower(if Quoted(t, '"') || Quoted(t, '\'') then Unquote(t) else t);
      [InlineRule(t)]
  }

  /** The rule contributed by one keyword-file line: none when blank or a `#` comment. */
  function FileItem(line: string): (rs: seq<Rule>)
    ensures |rs| <= 1
    ensures forall r :: r in rs ==> IsLower(r.text)
    ensures rs == [] <==> Strip(line) == "" || Strip(line)[0] == '#'
    ensures rs != [] ==> (rs[0].Phrase? <==> Quoted(Strip(line), '"'))
    ensures rs != [] ==> rs == [FileRule(Strip(line))]
  {
    var t := Strip(line);
    if t == "" || t[0] == '#' then []
    else
      LowerIsLower(if Quoted(t, '"') then Unquote(t) else t);
      [FileRule(t)]
  }

  /** Rules of the comma-separated items, in order, blank items skipped. */
  function InlineRules(items: seq<string>): (rules: seq<Rule>)
    ensures |rules| <= |items|
    ensures forall r :: r in rules ==> IsLower(r.text)
  {
    if |items| == 0 then [] else InlineItem(items[0]) + InlineRules(items[1..])
  }

  /** Rules of the keyword file's lines, in order, blank and `#` lines skipped. */
  function FileRules(lines: seq<string>): (rules: seq<Rule>)
    ensures |rules| <= |lines|
    ensures forall r :: r in rules ==> IsLower(r.text)
  {
    if |lines| == 0 then [] else FileItem(lines[0]) + FileRules(lines[1..])
  }

  /** The inline override `--keywords`, split at every comma. */
  function ParseInline(s: string): seq<Rule> {
    InlineRules(Split(s, ','))
  }

  /**
   * `load_keywords`: a non-empty override wins; otherwise the keyword file
   * (None when it does not exist, which yields no rules).
   */
  function LoadKeywords(inline: Option<string>, file: Option<seq<string>>): (rules: seq<Rule>)
    ensures inline.Some? && inline.value != "" ==> rules == ParseInline(inline.value)
    ensures (inline.None? || inline.value == "") && file.None? ==> rules == []
    ensures (inline.None? || inline.value == "") && file.Some? ==> rules == FileRules(file.value)
    ensures forall r :: r in rules ==> IsLower(r.text)
  {
    if inline.Some? && inline.value != "" then ParseInline(inline.value)
    else if file.None? then []
    else FileRules(file.value)
  }

  // ---------------------------------------------------------------------
  // Properties

  /** Regrouping a concatenation: `x + (rr + rb)` is `(x + rr) + rb`. */
  lemma ConcatChain(whole: seq<Rule>, x: seq<Rule>, rest: seq<Rule>, ra: seq<Rule>, rr: seq<Rule>, rb: seq<Rule>)
    requires whole == x + rest && rest == rr + rb && ra == x + rr
    ensures whole == ra + rb
  {
  }

  /** Items contribute their rules in order: parsing distributes over concatenation. */
  lemma {:induction false} InlineRulesAppend(a: seq<string>, b: seq<string>)
    ensures InlineRules(a + b) == InlineRules(a) + InlineRules(b)
  {
    if |a| == 0 {
      assert a + b == b;
    } else {
      var r := a[1..];
      assert (a + b)[0] == a[0] && (a + b)[1..] == r + b;
      InlineRulesAppend(r, b);
      ConcatChain(InlineRules(a + b), InlineItem(a[0]), InlineRules(r + b), InlineRules(a), InlineRules(r), InlineRules(b));
    }
  }

  /** File lines contribute their rules in order. */
  lemma {:induction false} FileRulesAppend(a: seq<string>, b: seq<string>)
    ensures FileRules(a + b) == FileRules(a) + FileRules(b)
  {
    if |a| == 0 {
      assert a + b == b;
    } else {
      var r := a[1..];
      assert (a + b)[0] == a[0] && (a + b)[1..] == r + b;
      FileRulesAppend(r, b);
      ConcatChain(FileRules(a + b), FileItem(a[0]), FileRules(r + b), FileRules(a), FileRules(r), FileRules(b));
    }
  }

  /** How a rule is written: a phrase in double quotes, a word bare. */
  function Render(r: Rule): string {
    match r
    case Word(t) => t
    case Phrase(t) => "\"" + t + "\""
  }

  /** A word that reads back as itself: non-blank, stripped, not looking quoted. */
  predicate PlainWord(t: string) {
    t != "" && Strip(t) == t && !Quoted(t, '"')
  }

  /** Rules that an inline list can spell: lower-case, comma-free, unambiguous words. */
  predicate InlineSpellable(r: Rule) {
    && IsLower(r.text)
    && ',' !in r.text
    && (r.Word? ==> PlainWord(r.text) && !Quoted(r.text, '\''))
  }

  /**
   * Rules a keyword file can spell: lower-case, on one line (reading the file
   * splits at `\n` and `\r`), words neither quoted nor comments.
   */
  predicate FileSpellable(r: Rule) {
    && IsLower(r.text)
    && '\n' !in r.text && '\r' !in r.text
    && (r.Word? ==> PlainWord(r.text) && r.text[0] != '#')
  }

  function RenderAll(rules: seq<Rule>): (items: seq<string>)
    ensures |items| == |rules|
    ensures forall k :: 0 <= k < |rules| ==> items[k] == Render(rules[k])
  {
    if |rules| == 0 then [] else [Render(rules[0])] + RenderAll(rules[1..])
  }

  /** The override string that spells `rules`. */
  function RenderInline(rules: seq<Rule>): string {
    Join([','], RenderAll(rules))
  }

  /** The keyword file that spells `rules`, one rule per newline-terminated line. */
  function RenderFile(rules: seq<Rule>): (lines: seq<string>)
    ensures |lines| == |rules|
  {
    if |rules| == 0 then [] else [Render(rules[0]) + "\n"] + RenderFile(rules[1..])
  }

  /** A quoted phrase is not changed by stripping. */
  lemma RenderPhraseStripped(t: string)
    ensures Strip("\"" + t + "\"") == "\"" + t + "\""
    ensures Quoted("\"" + t + "\"", '"') && Unquote("\"" + t + "\"") == t
  {
    var s := "\"" + t + "\"";
    StripTrimmed(s);
    assert s[1..|s| - 1] == t;
  }

  /** A spellable rule, written as an override item, reads back as itself. */
  lemma InlineItemOfRender(r: Rule)
    requires InlineSpellable(r)
    ensures InlineItem(Render(r)) == [r]
  {
    match r
    case Phrase(t) =>
      RenderPhraseStripped(t);
    case Word(t) =>
      assert Strip(Render(r)) == t;
  }

  /** A spellable rule, written as a keyword-file line, reads back as itself. */
  lemma FileItemOfRender(r: Rule)
    requires FileSpellable(r)
    ensures FileItem(Render(r) + "\n") == [r]
  {
    StripTrailingSpace(Render(r), '\n');
    match r
    case Phrase(t) =>
      RenderPhraseStripped(t);
    case Word(t) =>
      assert Strip(Render(r)) == t;
  }

  lemma {:induction false} InlineRulesOfRendered(rules: seq<Rule>)
    requires forall r :: r in rules ==> InlineSpellable(r)
    ensures InlineRules(RenderAll(rules)) == rules
  {
    if |rules| > 0 {
      var items := RenderAll(rules);
      assert InlineItem(items[0]) == [rules[0]] by {
        assert rules[0] in rules;
        InlineItemOfRender(rules[0]);
      }
      assert InlineRules(items[1..]) == rules[1..] by {
        assert items[1..] == RenderAll(rules[1..]);
        assert forall r :: r in rules[1..] ==> r in rules;
        InlineRulesOfRendered(rules[1..]);
      }
      assert rules == [rules[0]] + rules[1..];
    }
  }

  /** A spellable rule is spelled without commas, and never as the empty item. */
  lemma RenderCommaFree(r: Rule)
    requires InlineSpellable(r)
    ensures ',' !in Render(r) && Render(r) != ""
  {
    if r.Phrase? {
      assert Render(r) == ['"'] + r.text + ['"'];
    }
  }

  /** No item of a spelled list contains the separator. */
  lemma RenderedCommaFree(rules: seq<Rule>)
    requires forall r :: r in rules ==> InlineSpellable(r)
    ensures forall p :: p in RenderAll(rules) ==> ',' !in p
  {
    var items := RenderAll(rules);
    forall p | p in items ensures ',' !in p {
      var k :| 0 <= k < |items| && items[k] == p;
      assert rules[k] in rules;
      RenderCommaFree(rules[k]);
    }
  }

  /** Spelling rules as an override and parsing it back gives the same rules. */
  lemma InlineRoundTrip(rules: seq<Rule>)
    requires |rules| > 0
    requires forall r :: r in rules ==> InlineSpellable(r)
    ensures LoadKeywords(Some(RenderInline(rules)), None) == rules
  {
    var items := RenderAll(rules);
    var x := RenderInline(rules);
    assert x != "" by {
      assert rules[0] in rules;
      RenderCommaFree(rules[0]);
      assert |x| >= |items[0]|;
    }
    assert Split(x, ',') == items by {
      RenderedCommaFree(rules);
      SplitJoin(items, ',');
    }
    assert InlineRules(items) == rules by {
      InlineRulesOfRendered(rules);
    }
  }

  /** Writing rules to a keyword file and loading it gives the same rules. */
  lemma {:induction false} FileRoundTrip(rules: seq<Rule>)
    requires forall r :: r in rules ==> FileSpellable(r)
    ensures FileRules(RenderFile(rules)) == rules
  {
    if |rules| > 0 {
      assert rules[0] in rules;
      FileItemOfRender(rules[0]);
      assert RenderFile(rules)[0] == Render(rules[0]) + "\n";
      assert RenderFile(rules)[1..] == RenderFile(rules[1..]);
      FileRoundTrip(rules[1..]);
      assert rules == [rules[0]] + rules[1..];
    }
  }

  /** In the override a single-quoted item is a phrase, quotes removed. */
  lemma InlineSingleQuoteIsPhrase(item: string)
    requires Strip(item) == item && Quoted(item, '\'') && |item| >= 2
    ensures InlineRules([item]) == [Phrase(Lower(item[1..|item| - 1]))]
  {
  }

  /**
   * A `#` item is an ordinary word in the override, while the same text as a
   * keyword-file line is a comment and gives no rule.
   */
  lemma HashIsWordOnlyInline(item: string)
    requires Strip(item) == item && |item| >= 1 && item[0] == '#' && !Quoted(item, '"') && !Quoted(item, '\'')
    ensures InlineRules([item]) == [Word(Lower(item))]
    ensures FileRules([item]) == []
  {
  }

  /** Items without commas, joined by commas, parse item by item. */
  lemma ParseInlineItems(items: seq<string>)
    requires |items| >= 1
    requires forall p :: p in items ==> ',' !in p
    ensures ParseInline(Join([','], items)) == InlineRules(items)
  {
    SplitJoin(items, ',');
  }

  /** In the keyword file a single-quoted line is a word rule, quotes and all. */
  lemma FileSingleQuoteIsWord(line: string)
    requires Strip(line) == line && Quoted(line, '\'') && |line| >= 2
    ensures FileRules([line]) == [Word(Lower(line))]
  {
  }
}
