/**
 * Keyword matching (`match_keywords`): the haystack is chosen by scope and
 * lower-cased, and the text of the first rule, in rule order, that occurs in
 * it is reported. Phrases are substrings; words must sit between two regular
 * expression word boundaries (`\b`).
 */
module Matcher {
  import opened Wrappers
  import opened Text
  import opened Keywords

  /** ASCII approximation of the regular-expression class `\w`. */
  predicate IsWordChar(c: char) {
    ('a' <= c && c <= 'z') || ('A' <= c && c <= 'Z') || ('0' <= c && c <= '9') || c == '_'
  }

  /** Position `k` holds a word character; positions outside `h` never do. */
  predicate WordCharAt(h: string, k: int) {
    0 <= k < |h| && IsWordChar(h[k])
  }

  /** `\b` matches at position `k` (0 <= k <= |h|). */
  predicate Boundary(h: string, k: int) {
    WordCharAt(h, k - 1) != WordCharAt(h, k)
  }

  predicate OccursAt(h: string, w: string, i: int) {
    0 <= i && i + |w| <= |h| && h[i..i + |w|] == w
  }

  /** Python's `w in h`. */
  predicate Contains(h: string, w: string) {
    exists i :: 0 <= i <= |h| && OccursAt(h, w, i)
  }

  /** `w` occurs at `i` with a word boundary on both sides. */
  predicate WordAt(h: string, w: string, i: int) {
    OccursAt(h, w, i) && Boundary(h, i) && Boundary(h, i + |w|)
  }

  /** The word search finds `w`, taken literally, between two word boundaries somewhere in `h`. */
  predicate ContainsWord(h: string, w: string) {
    exists i :: 0 <= i <= |h| && WordAt(h, w, i)
  }

  predicate Matches(r: Rule, h: string) {
    match r
    case Phrase(t) => Contains(h, t)
    case Word(t) => ContainsWord(h, t)
  }

  /** The lower-cased text searched: subject-only wins over body-only; otherwise both. */
  function Haystack(subjectOnly: bool, bodyOnly: bool, subject: string, content: string): (h: string)
    ensures IsLower(h)
    ensures subjectOnly ==> h == Lower(subject)
    ensures !subjectOnly && bodyOnly ==> h == Lower(content)
    ensures !subjectOnly && !bodyOnly ==> h == Lower(subject) + " " + Lower(content)
    ensures !subjectOnly && !bodyOnly ==> |h| == |subject| + 1 + |content| && h[|subject|] == ' '
  {
    LowerIsLower(subject);
    LowerIsLower(content);
    LowerIsLower(subject + " " + content);
    LowerAppend(subject, " " + content);
    LowerAppend(" ", content);
    if subjectOnly then Lower(subject)
    else if bodyOnly then Lower(content)
    else Lower(subject) + " " + Lower(content)
  }

  /**
   * With `--subject-only` the body and `--body-only` are ignored; with only
   * `--body-only` the subject is ignored.
   */
  lemma HaystackScope(bodyOnly: bool, subject: string, content: string, subject2: string, content2: string)
    ensures Haystack(true, bodyOnly, subject, content) == Haystack(true, false, subject, content2)
    ensures Haystack(false, true, subject, content) == Haystack(false, true, subject2, content)
  {
  }

  /** At either end of the text, `\b` matches exactly when the adjacent character is a word character. */
  lemma BoundaryAtEnds(h: string)
    ensures Boundary(h, 0) <==> |h| > 0 && IsWordChar(h[0])
    ensures Boundary(h, |h|) <==> |h| > 0 && IsWordChar(h[|h| - 1])
  {
  }

  /** A word occurrence flanked by non-word characters (or the ends) is a word match. */
  lemma WordAtBetweenNonWord(h: string, w: string, i: int)
    requires OccursAt(h, w, i) && |w| > 0 && IsWordChar(w[0]) && IsWordChar(w[|w| - 1])
    requires i == 0 || !IsWordChar(h[i - 1])
    requires i + |w| == |h| || !IsWordChar(h[i + |w|])
    ensures WordAt(h, w, i)
  {
    assert h[i] == w[0] && h[i + |w| - 1] == w[|w| - 1];
  }

  /** Index of the first rule that matches `h`. */
  function FirstMatch(rules: seq<Rule>, h: string): (k: Option<nat>)
    ensures k.None? <==> forall i :: 0 <= i < |rules| ==> !Matches(rules[i], h)
    ensures k.Some? ==> k.value < |rules| && Matches(rules[k.value], h)
    ensures k.Some? ==> forall j :: 0 <= j < k.value ==> !Matches(rules[j], h)
  {
    if |rules| == 0 then None
    else if Matches(rules[0], h) then Some(0)
    else
      match FirstMatch(rules[1..], h)
      case None => None
      case Some(k) => Some(k + 1)
  }

  /** `match_keywords`: the text of the earliest rule that matches the haystack, None iff none does. */
  function MatchKeywords(content: string, rules: seq<Rule>, subjectOnly: bool, bodyOnly: bool,
                         subject: string): (m: Option<string>)
    ensures var h := Haystack(subjectOnly, bodyOnly, subject, content);
            m.None? <==> forall i :: 0 <= i < |rules| ==> !Matches(rules[i], h)
    ensures var h := Haystack(subjectOnly, bodyOnly, subject, content);
            m.Some? ==> exists i :: 0 <= i < |rules| && Matches(rules[i], h) && rules[i].text == m.value
                                    && forall j :: 0 <= j < i ==> !Matches(rules[j], h)
  {
    var h := Haystack(subjectOnly, bodyOnly, subject, content);
    match FirstMatch(rules, h)
    case None => None
    case Some(k) => Some(rules[k].text)
  }

  // ---------------------------------------------------------------------
  // Searching

  /** The substring test `p in h`, by scanning every start position. */
  method SearchPhrase(h: string, p: string) returns (found: bool)
    ensures found <==> Contains(h, p)
  {
    if |p| > |h| {
      return false;
    }
    var i := 0;
    while i <= |h| - |p|
      invariant 0 <= i <= |h| - |p| + 1
      invariant forall j :: 0 <= j < i ==> !OccursAt(h, p, j)
    {
      if h[i..i + |p|] == p {
        assert OccursAt(h, p, i);
        return true;
      }
      i := i + 1;
    }
    return false;
  }

  /** The word search `\bw\b`, by scanning every start position. */
  method SearchWord(h: string, w: string) returns (found: bool)
    ensures found <==> ContainsWord(h, w)
  {
    if |w| > |h| {
      return false;
    }
    var i := 0;
    while i <= |h| - |w|
      invariant 0 <= i <= |h| - |w| + 1
      invariant forall j :: 0 <= j < i ==> !WordAt(h, w, j)
    {
      var before := 0 < i && IsWordChar(h[i - 1]);
      var first := i < |h| && IsWordChar(h[i]);
      var last := 0 < i + |w| && IsWordChar(h[i + |w| - 1]);
      var after := i + |w| < |h| && IsWordChar(h[i + |w|]);
      if h[i..i + |w|] == w && before != first && last != after {
        assert WordAt(h, w, i);
        return true;
      }
      i := i + 1;
    }
    return false;
  }

  /** The rule loop of `match_keywords`, run over an already-built haystack. */
  method MatchRules(h: string, rules: seq<Rule>) returns (m: Option<string>)
    ensures m.None? <==> forall i :: 0 <= i < |rules| ==> !Matches(rules[i], h)
    ensures m.Some? ==> exists i :: 0 <= i < |rules| && Matches(rules[i], h) && rules[i].text == m.value
                                    && forall j :: 0 <= j < i ==> !Matches(rules[j], h)
  {
    var k := 0;
    while k < |rules|
      invariant 0 <= k <= |rules|
      invariant forall j :: 0 <= j < k ==> !Matches(rules[j], h)
    {
      var hit: bool;
      match rules[k] {
        case Phrase(t) =>
          hit := SearchPhrase(h, t);
        case Word(t) =>
          hit := SearchWord(h, t);
      }
      if hit {
        return Some(rules[k].text);
      }
      k := k + 1;
    }
    return None;
  }

  // ---------------------------------------------------------------------
  // Properties

  /** A word occurrence is in particular a substring occurrence. */
  lemma WordImpliesPhrase(h: string, w: string)
    requires ContainsWord(h, w)
    ensures Contains(h, w)
  {
    var i :| 0 <= i <= |h| && WordAt(h, w, i);
    assert OccursAt(h, w, i);
  }

  /** Rules after the first matching one never change the result. */
  lemma {:induction false} FirstMatchAppend(a: seq<Rule>, b: seq<Rule>, h: string)
    ensures FirstMatch(a + b, h) ==
            match FirstMatch(a, h)
            case Some(k) => Some(k)
            case None => match FirstMatch(b, h)
                         case None => None
                         case Some(k) => Some(k + |a|)
  {
    if |a| == 0 {
      assert a + b == b;
    } else {
      var ab := a + b;
      assert ab[0] == a[0] && ab[1..] == a[1..] + b;
      FirstMatchAppend(a[1..], b, h);
    }
  }

  /** Appending a separator and more text keeps the boundaries inside `s`. */
  lemma BoundaryPrefix(s: string, b: string, k: int)
    requires 0 <= k <= |s|
    ensures Boundary(s + " " + b, k) == Boundary(s, k)
  {
  }

  /** Prefixing text and a separator shifts the boundaries of `b` unchanged. */
  lemma BoundarySuffix(s: string, b: string, k: int)
    requires 0 <= k <= |b|
    ensures Boundary(s + " " + b, |s| + 1 + k) == Boundary(b, k)
  {
    var h := s + " " + b;
    assert WordCharAt(h, |s| + 1 + k) == WordCharAt(b, k);
    if k > 0 {
      assert h[|s| + 1 + k - 1] == b[k - 1];
    }
  }

  /** An occurrence in `s` is still one after appending a separator and `b`. */
  lemma OccursInPrefix(s: string, b: string, t: string, i: int)
    requires OccursAt(s, t, i)
    ensures OccursAt(s + " " + b, t, i)
  {
    var h := s + " " + b;
    assert forall j :: i <= j < i + |t| ==> h[j] == s[j];
    assert h[i..i + |t|] == s[i..i + |t|];
  }

  /** An occurrence in `b` is one in `s + " " + b`, shifted by `|s| + 1`. */
  lemma OccursInSuffix(s: string, b: string, t: string, i: int)
    requires OccursAt(b, t, i)
    ensures OccursAt(s + " " + b, t, |s| + 1 + i)
  {
    var h := s + " " + b;
    var d := |s| + 1;
    assert forall j :: i <= j < i + |t| ==> h[d + j] == b[j];
    assert h[d + i..d + i + |t|] == b[i..i + |t|];
  }

  /** A word occurrence in `s` is still one after appending a separator and `b`. */
  lemma WordInPrefix(s: string, b: string, t: string, i: int)
    requires WordAt(s, t, i)
    ensures WordAt(s + " " + b, t, i)
  {
    OccursInPrefix(s, b, t, i);
    BoundaryPrefix(s, b, i);
    BoundaryPrefix(s, b, i + |t|);
  }

  /** A word occurrence in `b` is one in `s + " " + b`, shifted by `|s| + 1`. */
  lemma WordInSuffix(s: string, b: string, t: string, i: int)
    requires WordAt(b, t, i)
    ensures WordAt(s + " " + b, t, |s| + 1 + i)
  {
    OccursInSuffix(s, b, t, i);
    BoundarySuffix(s, b, i);
    BoundarySuffix(s, b, i + |t|);
  }

  /** A rule matching the subject alone also matches subject and body together. */
  lemma SubjectMatchSurvivesBoth(r: Rule, s: string, b: string)
    requires Matches(r, s)
    ensures Matches(r, s + " " + b)
  {
    var t := r.text;
    if r.Phrase? {
      var i :| 0 <= i <= |s| && OccursAt(s, t, i);
      OccursInPrefix(s, b, t, i);
    } else {
      var i :| 0 <= i <= |s| && WordAt(s, t, i);
      WordInPrefix(s, b, t, i);
    }
  }

  /** A rule matching the body alone also matches subject and body together. */
  lemma BodyMatchSurvivesBoth(r: Rule, s: string, b: string)
    requires Matches(r, b)
    ensures Matches(r, s + " " + b)
  {
    var t := r.text;
    if r.Phrase? {
      var i :| 0 <= i <= |b| && OccursAt(b, t, i);
      OccursInSuffix(s, b, t, i);
    } else {
      var i :| 0 <= i <= |b| && WordAt(b, t, i);
      WordInSuffix(s, b, t, i);
    }
  }

  /** Narrowing the scope to the subject or to the body never creates a match. */
  lemma NarrowScopeNoNewMatch(content: string, rules: seq<Rule>, subject: string)
    requires MatchKeywords(content, rules, false, false, subject).None?
    ensures MatchKeywords(content, rules, true, false, subject).None?
    ensures MatchKeywords(content, rules, false, true, subject).None?
  {
    var s, b := Lower(subject), Lower(content);
    forall i | 0 <= i < |rules|
      ensures !Matches(rules[i], s) && !Matches(rules[i], b)
    {
      assert !Matches(rules[i], s + " " + b);
      if Matches(rules[i], s) {
        SubjectMatchSurvivesBoth(rules[i], s, b);
      }
      if Matches(rules[i], b) {
        BodyMatchSurvivesBoth(rules[i], s, b);
      }
    }
  }

  /** A text that lacks the first character of `w` holds no occurrence of it. */
  lemma AbsentFirstChar(h: string, w: string)
    requires |w| > 0 && w[0] !in h
    ensures !Contains(h, w) && !ContainsWord(h, w)
  {
    forall i | 0 <= i <= |h|
      ensures !OccursAt(h, w, i)
    {
      if i + |w| <= |h| {
        assert h[i..i + |w|][0] == h[i] && h[i] in h;
      }
    }
  }

  lemma ExampleHaystack()
    ensures Haystack(false, false, "Re: buy now offer", "") == "re: buy now offer "
  {
    var subject := "Re: buy now offer";
    assert LowerChar('R') == 'r';
    assert forall i :: 1 <= i < |subject| ==> LowerChar(subject[i]) == subject[i];
    assert Lower(subject) == "re: buy now offer";
  }

  /**
   * A word rule listed first does not win when it is absent: with rules
   * `spam` and `"buy now"`, subject "Re: buy now offer" and an empty body,
   * the phrase is reported.
   */
  lemma PhraseFoundWhenWordAbsent()
    ensures MatchKeywords("", [Word("spam"), Phrase("buy now")], false, false, "Re: buy now offer")
            == Some("buy now")
  {
    var h := "re: buy now offer ";
    ExampleHaystack();
    AbsentFirstChar(h, "spam");
    assert OccursAt(h, "buy now", 4);
    assert FirstMatch([Word("spam"), Phrase("buy now")], h) == Some(1);
  }
}
