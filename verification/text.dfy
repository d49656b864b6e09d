/**
 * The string primitives the script relies on, with Python's meaning:
 * `str.isspace` / `str.strip`, an ASCII `str.lower`, `str.startswith` /
 * `str.endswith`, `str.split(c)` / `sep.join(parts)`, and the code-point
 * ordering `sorted` uses on strings.
 */
module Text {

  /** Exactly the characters for which Python's `str.isspace()` holds. */
  function IsSpace(c: char): (b: bool)
    ensures c == ' ' || c == '\t' || c == '\n' || c == '\r' ==> b
    ensures b && c < '\U{80}' ==> c <= ' '
  {
    || c == ' '
    || ('\U{9}' <= c && c <= '\U{D}')
    || ('\U{1C}' <= c && c <= '\U{1F}')
    || c == '\U{85}' || c == '\U{A0}' || c == '\U{1680}'
    || ('\U{2000}' <= c && c <= '\U{200A}')
    || c == '\U{2028}' || c == '\U{2029}' || c == '\U{202F}'
    || c == '\U{205F}' || c == '\U{3000}'
  }

  /** ASCII lower-casing of one character. */
  function LowerChar(c: char): char {
    if 'A' <= c && c <= 'Z' then (c as int + 32) as char else c
  }

  /** ASCII approximation of Python's `str.lower()`. */
  function Lower(s: string): (r: string)
    ensures |r| == |s|
    ensures forall i :: 0 <= i < |s| ==> r[i] == LowerChar(s[i])
  {
    seq(|s|, i requires 0 <= i < |s| => LowerChar(s[i]))
  }

  /** A string that lower-casing leaves unchanged. */
  predicate IsLower(s: string) {
    Lower(s) == s
  }

  lemma LowerIsLower(s: string)
    ensures IsLower(Lower(s))
  {
  }

  lemma LowerAppend(a: string, b: string)
    ensures Lower(a + b) == Lower(a) + Lower(b)
  {
  }

  predicate StartsWith(s: string, p: string) {
    |p| <= |s| && s[..|p|] == p
  }

  predicate EndsWith(s: string, p: string) {
    |p| <= |s| && s[|s| - |p|..] == p
  }

  // ---------------------------------------------------------------------
  // strip()

  /** Index of the first non-whitespace character at or after `from`, or `|s|`. */
  function SkipSpaces(s: string, from: nat): (k: nat)
    requires from <= |s|
    ensures from <= k <= |s|
    ensures forall i :: from <= i < k ==> IsSpace(s[i])
    ensures k < |s| ==> !IsSpace(s[k])
    decreases |s| - from
  {
    if from < |s| && IsSpace(s[from]) then SkipSpaces(s, from + 1) else from
  }

  /** End of `s[..to]` without its trailing whitespace. */
  function SkipSpacesBack(s: string, to: nat): (k: nat)
    requires to <= |s|
    ensures k <= to
    ensures forall i :: k <= i < to ==> IsSpace(s[i])
    ensures 0 < k ==> !IsSpace(s[k - 1])
  {
    if 0 < to && IsSpace(s[to - 1]) then SkipSpacesBack(s, to - 1) else to
  }

  /** Number of leading whitespace characters. */
  function LeadingSpaces(s: string): (k: nat)
    ensures k <= |s|
    ensures forall i :: 0 <= i < k ==> IsSpace(s[i])
    ensures k < |s| ==> !IsSpace(s[k])
  {
    SkipSpaces(s, 0)
  }

  /** Length of `s` without its trailing whitespace. */
  function TrailingStart(s: string): (k: nat)
    ensures k <= |s|
    ensures forall i :: k <= i < |s| ==> IsSpace(s[i])
    ensures 0 < k ==> !IsSpace(s[k - 1])
  {
    SkipSpacesBack(s, |s|)
  }

  /** Python's `s.strip()`: `s` without leading and trailing whitespace. */
  function Strip(s: string): (r: string)
    ensures |r| > 0 ==> !IsSpace(r[0]) && !IsSpace(r[|r| - 1])
    ensures LeadingSpaces(s) + |r| <= |s|
  {
    var a := LeadingSpaces(s);
    if a == |s| then "" else s[a..TrailingStart(s)]
  }

  /** The stripped text is the slice of `s` after its leading whitespace. */
  lemma StripIsSlice(s: string)
    ensures Strip(s) == s[LeadingSpaces(s)..LeadingSpaces(s) + |Strip(s)|]
  {
  }

  /** `k` leading whitespace characters followed by a non-whitespace one (or the end). */
  lemma LeadingSpacesAt(s: string, k: nat)
    requires k <= |s| && (k < |s| ==> !IsSpace(s[k]))
    requires forall i :: 0 <= i < k ==> IsSpace(s[i])
    ensures LeadingSpaces(s) == k
  {
  }

  /** Whitespace from `k` on, preceded by a non-whitespace character (or the start). */
  lemma TrailingStartAt(s: string, k: nat)
    requires k <= |s| && (0 < k ==> !IsSpace(s[k - 1]))
    requires forall i :: k <= i < |s| ==> IsSpace(s[i])
    ensures TrailingStart(s) == k
  {
  }

  /** A non-whitespace character survives stripping, in place. */
  lemma StripKeeps(s: string, i: int)
    requires 0 <= i < |s| && !IsSpace(s[i])
    ensures LeadingSpaces(s) <= i < LeadingSpaces(s) + |Strip(s)|
    ensures Strip(s)[i - LeadingSpaces(s)] == s[i]
    ensures s[i] in Strip(s)
  {
    var a := LeadingSpaces(s);
    var t := TrailingStart(s);
    assert a <= i < t;
    var r := s[a..t];
    assert Strip(s) == r;
    assert r[i - a] == s[i];
  }

  /** Only an all-whitespace string strips to nothing. */
  lemma StripEmpty(s: string)
    ensures Strip(s) == "" <==> forall i :: 0 <= i < |s| ==> IsSpace(s[i])
  {
    if Strip(s) == "" {
      forall i | 0 <= i < |s| ensures IsSpace(s[i]) {
        if !IsSpace(s[i]) {
          StripKeeps(s, i);
        }
      }
    }
  }

  /** A string that begins and ends with non-whitespace is its own strip. */
  lemma StripTrimmed(s: string)
    requires |s| == 0 || (!IsSpace(s[0]) && !IsSpace(s[|s| - 1]))
    ensures Strip(s) == s
  {
    if |s| > 0 {
      assert LeadingSpaces(s) == 0;
      assert TrailingStart(s) == |s|;
    }
  }

  lemma StripIdempotent(s: string)
    ensures Strip(Strip(s)) == Strip(s)
  {
    StripTrimmed(Strip(s));
  }

  /** Trailing whitespace (such as a line's newline) does not change the strip. */
  lemma StripTrailingSpace(s: string, c: char)
    requires IsSpace(c)
    ensures Strip(s + [c]) == Strip(s)
  {
    var t := s + [c];
    var a := LeadingSpaces(s);
    if a == |s| {
      LeadingSpacesAt(t, |t|);
    } else {
      LeadingSpacesAt(t, a);
      var b := TrailingStart(s);
      assert a < b by {
        assert !IsSpace(s[a]);
      }
      TrailingStartAt(t, b);
      assert t[a..b] == s[a..b];
    }
  }

  /** Any run of trailing whitespace does not change the strip. */
  lemma {:induction false} StripTrailingSpaces(s: string, sp: string)
    requires forall i :: 0 <= i < |sp| ==> IsSpace(sp[i])
    ensures Strip(s + sp) == Strip(s)
    decreases |sp|
  {
    if |sp| == 0 {
      assert s + sp == s;
    } else {
      var n := |sp| - 1;
      var t := s + sp[..n];
      assert s + sp == t + [sp[n]];
      StripTrailingSpace(t, sp[n]);
      StripTrailingSpaces(s, sp[..n]);
    }
  }

  // ---------------------------------------------------------------------
  // split(c) and join

  /** Index of the first `c` in `s`, or `|s|` when there is none. */
  function IndexOf(s: string, c: char): (k: nat)
    ensures k <= |s|
    ensures k < |s| ==> s[k] == c
    ensures forall i :: 0 <= i < k ==> s[i] != c
  {
    if |s| == 0 || s[0] == c then 0 else 1 + IndexOf(s[1..], c)
  }

  /** The first `c` is at `k`: no earlier index holds it. */
  lemma IndexOfAt(s: string, c: char, k: nat)
    requires k <= |s|
    requires k < |s| ==> s[k] == c
    requires forall i :: 0 <= i < k ==> s[i] != c
    ensures IndexOf(s, c) == k
  {
  }

  /** Python's `sep.join(parts)`. */
  function Join(sep: string, parts: seq<string>): string {
    if |parts| == 0 then ""
    else if |parts| == 1 then parts[0]
    else parts[0] + sep + Join(sep, parts[1..])
  }

  /**
   * The joined text starts with the first part, followed by the separator
   * when there is a second, and ends with the last part.
   */
  lemma {:induction false} JoinEnds(sep: string, parts: seq<string>)
    requires |parts| >= 1
    ensures |parts[0]| <= |Join(sep, parts)| && Join(sep, parts)[..|parts[0]|] == parts[0]
    ensures |parts| >= 2 ==>
      |parts[0]| + |sep| <= |Join(sep, parts)| && Join(sep, parts)[|parts[0]|..|parts[0]| + |sep|] == sep
    ensures var s := Join(sep, parts); var l := parts[|parts| - 1];
      |l| <= |s| && s[|s| - |l|..] == l
  {
    if |parts| >= 2 {
      var rest := Join(sep, parts[1..]);
      JoinEnds(sep, parts[1..]);
      var s := parts[0] + sep + rest;
      assert s[|s| - |rest|..] == rest;
    }
  }

  /** Python's `s.split(c)` for a one-character separator. */
  function Split(s: string, c: char): (parts: seq<string>)
    ensures |parts| >= 1
    ensures forall p :: p in parts ==> c !in p
    ensures Join([c], parts) == s
    decreases |s|
  {
    var k := IndexOf(s, c);
    if k == |s| then [s]
    else
      var rest := Split(s[k + 1..], c);
      assert s == s[..k] + [c] + s[k + 1..];
      [s[..k]] + rest
  }

  /** Splitting a join of separator-free parts gives the parts back. */
  lemma {:induction false} SplitJoin(parts: seq<string>, c: char)
    requires |parts| >= 1
    requires forall p :: p in parts ==> c !in p
    ensures Split(Join([c], parts), c) == parts
  {
    if |parts| == 1 {
      assert parts[0] in parts;
      forall i | 0 <= i < |parts[0]| ensures parts[0][i] != c {
        assert parts[0][i] in parts[0];
      }
      IndexOfAt(parts[0], c, |parts[0]|);
    } else {
      var p := parts[0];
      var s := Join([c], parts);
      assert s == p + [c] + Join([c], parts[1..]);
      assert IndexOf(s, c) == |p| by {
        assert s[|p|] == c;
        assert p in parts;
        forall i | 0 <= i < |p| ensures s[i] != c {
          assert s[i] == p[i] && p[i] in p;
        }
        IndexOfAt(s, c, |p|);
      }
      assert s[..|p|] == p;
      assert s[|p| + 1..] == Join([c], parts[1..]);
      SplitJoin(parts[1..], c);
    }
  }

  // ---------------------------------------------------------------------
  // Code-point order, as Python compares `str` values

  /** Strict lexicographic order by code point; a proper prefix comes first. */
  predicate Less(a: string, b: string)
    decreases |a|
  {
    if |b| == 0 then false
    else if |a| == 0 then true
    else if a[0] != b[0] then a[0] < b[0]
    else Less(a[1..], b[1..])
  }

  lemma {:induction false} LessIrreflexive(a: string)
    ensures !Less(a, a)
    decreases |a|
  {
    if |a| > 0 {
      LessIrreflexive(a[1..]);
    }
  }

  lemma {:induction false} LessTransitive(a: string, b: string, c: string)
    requires Less(a, b) && Less(b, c)
    ensures Less(a, c)
    decreases |a|
  {
    if |a| > 0 && a[0] == b[0] && b[0] == c[0] {
      LessTransitive(a[1..], b[1..], c[1..]);
    }
  }

  lemma {:induction false} LessTotal(a: string, b: string)
    ensures a == b || Less(a, b) || Less(b, a)
    decreases |a|
  {
    if |a| > 0 && |b| > 0 && a[0] == b[0] {
      LessTotal(a[1..], b[1..]);
      if a[1..] == b[1..] {
        assert a == [a[0]] + a[1..] && b == [b[0]] + b[1..];
      }
    }
  }

  lemma {:induction false} LessAsymmetric(a: string, b: string)
    requires Less(a, b)
    ensures !Less(b, a)
    decreases |a|
  {
    if |a| > 0 && a[0] == b[0] {
      LessAsymmetric(a[1..], b[1..]);
    }
  }

  /** Every later element is strictly greater: sorted and free of duplicates. */
  predicate StrictlySorted(s: seq<string>) {
    forall i, j :: 0 <= i < j < |s| ==> Less(s[i], s[j])
  }
}
