/**
 * Field extraction from a message's raw lines (`extract_header`,
 * `extract_message_id`, `extract_body`). Header lookups scan every line,
 * body lines included; the body is what follows the first blank line.
 */
module Message {
  import opened Wrappers
  import opened Text

  /** What `extract_header` reports for an absent field. */
  const Missing := "(missing)"

  /** The lower-cased prefix that marks a header line: the name and a colon. */
  function HeaderPrefix(name: string): string {
    Lower(name) + ":"
  }

  /** The lower-cased line begins with `prefix`. */
  predicate IsFieldLine(line: string, prefix: string) {
    StartsWith(Lower(line), prefix)
  }

  /** A header line keeps its colon through stripping. */
  lemma FieldLineHasColon(line: string, name: string)
    requires IsFieldLine(line, HeaderPrefix(name))
    ensures ':' in Strip(line)
  {
    var k := |name|;
    assert Lower(line)[k] == HeaderPrefix(name)[k] == ':';
    assert line[k] == ':';
    StripKeeps(line, k);
  }

  /**
   * The value of a header line: the line is stripped, split once at its
   * first colon, and the part after the colon is stripped again.
   */
  function FieldValue(line: string): (v: string)
    requires ':' in Strip(line)
    ensures Strip(v) == v
  {
    var s := Strip(line);
    StripIdempotent(s[IndexOf(s, ':') + 1..]);
    Strip(s[IndexOf(s, ':') + 1..])
  }

  /** A field line `name:v` strips to its prefix up to the trailing whitespace, which lies past the colon. */
  lemma FieldLineStrip(name: string, v: string)
    requires name != "" && !IsSpace(name[0])
    ensures var line := name + ":" + v;
            |name| < TrailingStart(line) && Strip(line) == line[..TrailingStart(line)]
  {
    var line := name + ":" + v;
    assert line[0] == name[0];
    assert line[|name|] == ':' && !IsSpace(':');
    LeadingSpacesAt(line, 0);
  }

  /** A suffix `v` of `line`, cut where the trailing whitespace starts, strips as all of `v` does. */
  lemma SuffixStrip(line: string, v: string, k: nat, t: nat)
    requires k <= t <= |line| && line[k..] == v
    requires forall i :: t <= i < |line| ==> IsSpace(line[i])
    ensures Strip(line[k..t]) == Strip(v)
  {
    var sp := line[t..];
    assert v == line[k..t] + sp;
    assert forall j :: 0 <= j < |sp| ==> sp[j] == line[t + j];
    StripTrailingSpaces(line[k..t], sp);
  }

  /** In any prefix of `name:v` that keeps the colon, the first colon follows the name. */
  lemma FirstColon(name: string, v: string, t: nat)
    requires ':' !in name && |name| < t <= |name| + 1 + |v|
    ensures IndexOf((name + ":" + v)[..t], ':') == |name|
  {
    var s := (name + ":" + v)[..t];
    assert s[|name|] == ':';
    assert forall i :: 0 <= i < |name| ==> s[i] == name[i];
    IndexOfAt(s, ':', |name|);
  }

  /**
   * Reading a value back: for a field name that has no colon and does not
   * start with whitespace, the value of `name:v` is `v` stripped, whatever
   * `v` holds (further colons, surrounding whitespace, the line break).
   */
  lemma FieldValueOfLine(name: string, v: string)
    requires name != "" && !IsSpace(name[0]) && ':' !in name
    ensures ':' in Strip(name + ":" + v)
    ensures FieldValue(name + ":" + v) == Strip(v)
  {
    var line := name + ":" + v;
    var n := |name|;
    var t := TrailingStart(line);
    FieldLineStrip(name, v);
    FirstColon(name, v, t);
    assert line[..t][n] == ':';
    assert line[n + 1..] == v;
    SuffixStrip(line, v, n + 1, t);
    assert line[..t][n + 1..] == line[n + 1..t];
  }

  /** Index of the first line carrying `prefix`. */
  function FindField(lines: seq<string>, prefix: string): (k: Option<nat>)
    ensures k.None? <==> forall i :: 0 <= i < |lines| ==> !IsFieldLine(lines[i], prefix)
    ensures k.Some? ==> k.value < |lines| && IsFieldLine(lines[k.value], prefix)
    ensures k.Some? ==> forall j :: 0 <= j < k.value ==> !IsFieldLine(lines[j], prefix)
  {
    if |lines| == 0 then None
    else if IsFieldLine(lines[0], prefix) then Some(0)
    else
      match FindField(lines[1..], prefix)
      case None => None
      case Some(k) => Some(k + 1)
  }

  /** Only one index can be the first line carrying `prefix`. */
  lemma FirstIsUnique(lines: seq<string>, prefix: string, k: nat)
    requires k < |lines| && IsFieldLine(lines[k], prefix)
    requires forall j :: 0 <= j < k ==> !IsFieldLine(lines[j], prefix)
    ensures forall i :: 0 <= i < |lines| && IsFieldLine(lines[i], prefix)
                        && (forall j :: 0 <= j < i ==> !IsFieldLine(lines[j], prefix))
                        ==> i == k
  {
  }

  /**
   * `extract_header`: the value of the first line, anywhere in
   * the message, that starts with `name:` ignoring case; "(missing)" if none.
   */
  function ExtractHeader(lines: seq<string>, name: string): (v: string)
    ensures (forall i :: 0 <= i < |lines| ==> !IsFieldLine(lines[i], HeaderPrefix(name))) ==> v == Missing
    ensures forall i :: 0 <= i < |lines| && IsFieldLine(lines[i], HeaderPrefix(name))
                        && (forall j :: 0 <= j < i ==> !IsFieldLine(lines[j], HeaderPrefix(name)))
                        ==> ':' in Strip(lines[i]) && v == FieldValue(lines[i])
  {
    var p := HeaderPrefix(name);
    match FindField(lines, p)
    case None => Missing
    case Some(k) =>
      FieldLineHasColon(lines[k], name);
      FirstIsUnique(lines, p, k);
      FieldValue(lines[k])
  }

  /** The prefix `extract_message_id` looks for. */
  const MessageIdPrefix := "message-id:"

  lemma MessageIdPrefixIsHeaderPrefix()
    ensures HeaderPrefix("Message-ID") == MessageIdPrefix
  {
    var n := "Message-ID";
    assert LowerChar('M') == 'm' && LowerChar('I') == 'i' && LowerChar('D') == 'd';
    assert Lower(n) == "message-id";
  }

  /**
   * `extract_message_id`: the stripped value of the first
   * `Message-ID:` line (any case), or None when no line carries one.
   */
  function ExtractMessageId(lines: seq<string>): (id: Option<string>)
    ensures id.None? <==> forall i :: 0 <= i < |lines| ==> !IsFieldLine(lines[i], MessageIdPrefix)
    ensures id.Some? ==> Strip(id.value) == id.value
    ensures id.Some? ==> forall i :: 0 <= i < |lines| && IsFieldLine(lines[i], MessageIdPrefix)
                          && (forall j :: 0 <= j < i ==> !IsFieldLine(lines[j], MessageIdPrefix))
                          ==> ':' in Strip(lines[i]) && id.value == FieldValue(lines[i])
  {
    match FindField(lines, MessageIdPrefix)
    case None => None
    case Some(k) =>
      MessageIdPrefixIsHeaderPrefix();
      FieldLineHasColon(lines[k], "Message-ID");
      FirstIsUnique(lines, MessageIdPrefix, k);
      Some(FieldValue(lines[k]))
  }

  /** The message id is the `Message-ID` header value, with None in place of "(missing)". */
  lemma MessageIdAgreesWithHeader(lines: seq<string>)
    ensures ExtractMessageId(lines).Some? ==> ExtractMessageId(lines).value == ExtractHeader(lines, "Message-ID")
    ensures ExtractMessageId(lines).None? ==> ExtractHeader(lines, "Message-ID") == Missing
  {
    MessageIdPrefixIsHeaderPrefix();
  }

  /** A header found in the leading lines is not disturbed by whatever follows. */
  lemma {:induction false} HeaderFoundEarly(a: seq<string>, b: seq<string>, name: string)
    requires exists i :: 0 <= i < |a| && IsFieldLine(a[i], HeaderPrefix(name))
    ensures ExtractHeader(a + b, name) == ExtractHeader(a, name)
  {
    var p := HeaderPrefix(name);
    var k := FindField(a, p).value;
    assert forall j :: 0 <= j <= k ==> (a + b)[j] == a[j];
    assert FindField(a + b, p) == Some(k);
  }

  /** The header scan reaches the body: with no header line, a body line decides. */
  lemma HeaderFoundInBody(head: seq<string>, body: seq<string>, name: string)
    requires forall i :: 0 <= i < |head| ==> !IsFieldLine(head[i], HeaderPrefix(name))
    ensures ExtractHeader(head + body, name) == ExtractHeader(body, name)
  {
    var p := HeaderPrefix(name);
    var h := head + body;
    match FindField(body, p)
    case None =>
      assert forall i :: 0 <= i < |h| ==> !IsFieldLine(h[i], p) by {
        forall i | 0 <= i < |h| ensures !IsFieldLine(h[i], p) {
          if i >= |head| {
            assert h[i] == body[i - |head|];
          }
        }
      }
    case Some(k) =>
      assert h[|head| + k] == body[k];
      forall j | 0 <= j < |head| + k ensures !IsFieldLine(h[j], p) {
        if j >= |head| {
          assert h[j] == body[j - |head|];
        }
      }
      assert FindField(h, p) == Some(|head| + k);
  }

  /** The line holds only whitespace. */
  predicate IsBlank(line: string) {
    Strip(line) == ""
  }

  /**
   * `extract_body`: every line after the first blank one, verbatim,
   * later blank lines included; nothing when no line is blank.
   */
  function ExtractBody(lines: seq<string>): (body: seq<string>)
    ensures (forall i :: 0 <= i < |lines| ==> !IsBlank(lines[i])) ==> body == []
    ensures forall i :: 0 <= i < |lines| && IsBlank(lines[i]) && (forall j :: 0 <= j < i ==> !IsBlank(lines[j]))
                        ==> body == lines[i + 1..]
  {
    if |lines| == 0 then []
    else if IsBlank(lines[0]) then lines[1..]
    else
      var body := ExtractBody(lines[1..]);
      assert forall i :: 1 <= i <= |lines| ==> lines[i..] == lines[1..][i - 1..];
      body
  }

  /** Header lines, a blank separator and a body come apart again at the separator. */
  lemma BodyOfComposed(head: seq<string>, sep: string, body: seq<string>)
    requires forall i :: 0 <= i < |head| ==> !IsBlank(head[i])
    requires IsBlank(sep)
    ensures ExtractBody(head + [sep] + body) == body
  {
    var lines := head + [sep] + body;
    assert lines[|head|] == sep;
    assert forall j :: 0 <= j < |head| ==> lines[j] == head[j];
    assert lines[|head| + 1..] == body;
  }
}
