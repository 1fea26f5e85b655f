/**
 * The failure-message classifier of utils/utils.go: `ScrapeErrorMessage` and
 * the message computed by `CheckReturnCode`. The final `log.Fatal` becomes a
 * returned report string.
 */
module Utils {
  import opened Wrappers
  import opened Text
  import opened Regexp

  /** What `ScrapeErrorMessage` falls back to when its pattern does not match. */
  const Fallback := "Error executing operation"

  /** `<title>(.*?)</title>` */
  const TitlePattern := Delimited("<title>", "</title>", '\n')
  /** `{"errors":(.*?)}` */
  const ErrorsPattern := Delimited("{\"errors\":", "}", '\n')
  /** `{"error":"(.*?)"}` */
  const ErrorPattern := Delimited("{\"error\":\"", "\"}", '\n')

  const HtmlMarker := "<html>"
  const ErrorsMarker := "{\"errors\":{"
  const ErrorMarker := "{\"error\":"

  /** The characters the `errors` branch strips from its message. */
  const Separators := ",:{}\"]["

  /**
   * The separator function `f` handed to FieldsFunc: exactly the seven
   * punctuation characters of a JSON object; the space used as glue is not
   * one of them.
   */
  function IsSeparator(c: char): (b: bool)
    ensures b <==> c in Separators
    ensures c == ' ' || c == '\n' ==> !b
  {
    c == ',' || c == ':' || c == '{' || c == '}' || c == '"' || c == ']' || c == '['
  }

  predicate IsNewline(c: char)
  {
    c == '\n'
  }

  /** A separator or the space that `Join` puts between words. */
  predicate IsSeparatorOrSpace(c: char)
  {
    IsSeparator(c) || c == ' '
  }

  /**
   * Capture group 1 of the pattern, or the generic message when it does not
   * match. With a `.`-based pattern the result never spans two lines.
   */
  function ScrapeErrorMessage(message: string, pattern: Delimited): (r: string)
    ensures (forall a: nat, b: nat :: !MatchAt(message, pattern, a, b)) ==> r == Fallback
    ensures forall a: nat, b: nat :: FirstMatch(message, pattern, a, b) ==> r == message[a + |pattern.open|..b]
    ensures (exists a: nat, b: nat :: MatchAt(message, pattern, a, b)) ==>
      exists a: nat, b: nat :: FirstMatch(message, pattern, a, b) && r == message[a + |pattern.open|..b]
    ensures pattern.stop == '\n' ==> '\n' !in r
  {
    match Capture(message, pattern)
    case Some(group) => CaptureAvoidsStop(message, pattern); group
    case None => assert NoneSatisfy(Fallback, IsNewline); Fallback
  }

  /**
   * The `{"errors":{...}}` branch: first comma segment, punctuation stripped,
   * words joined by a space. The result holds no separator and no newline.
   */
  function ErrorsMessage(body: string): (r: string)
    ensures NoneSatisfy(r, IsSeparator)
    ensures '\n' !in r
  {
    var segment := FirstSegment(ScrapeErrorMessage(body, ErrorsPattern));
    var words := Fields(segment, IsSeparator);
    JoinNoneSatisfy(words, " ", IsSeparator);
    assert NoneSatisfy(segment, IsNewline);
    FieldsKeepAbsence(segment, IsSeparator, IsNewline);
    JoinNoneSatisfy(words, " ", IsNewline);
    var r := Join(words, " ");
    assert forall i :: 0 <= i < |r| ==> r[i] != '\n';
    r
  }

  /**
   * The message `CheckReturnCode` reports for a failed request with this
   * body. Every scraped message is a single line, so a message with a
   * newline is the body itself.
   */
  function Message(body: string): (r: string)
    ensures '\n' in r ==> r == body
  {
    if Contains(body, HtmlMarker) then ScrapeErrorMessage(body, TitlePattern)
    else if Contains(body, ErrorsMarker) then ErrorsMessage(body)
    else if Contains(body, ErrorMarker) then ScrapeErrorMessage(body, ErrorPattern)
    else body
  }

  const ReportPrefix := "HTTP request failed: ["

  /**
   * CheckReturnCode: nothing for a status below 300, otherwise the report
   * that the source passes to `log.Fatal`.
   */
  function CheckReturnCode(status: int, body: string): (report: Option<string>)
    ensures report.None? <==> status < 300
    ensures report.Some? ==> report.value == ReportPrefix + Message(body) + "]"
  {
    if status >= 300 then Some(ReportPrefix + Message(body) + "]") else None
  }

  /** A body with none of the three markers is reported verbatim. */
  lemma UnmarkedBodyVerbatim(body: string)
    requires !Contains(body, HtmlMarker) && !Contains(body, ErrorsMarker) && !Contains(body, ErrorMarker)
    ensures Message(body) == body
  {
  }

  /**
   * An HTML page is reported by its title: the text of Go's leftmost-first
   * match of `<title>(.*?)</title>`, which holds no newline, or the generic
   * message when there is none. The page check wins over the JSON checks.
   */
  lemma HtmlPageMessage(body: string)
    requires Contains(body, HtmlMarker)
    ensures (forall a: nat, b: nat :: !MatchAt(body, TitlePattern, a, b)) ==> Message(body) == Fallback
    ensures forall a: nat, b: nat :: FirstMatch(body, TitlePattern, a, b) ==> Message(body) == body[a + 7..b]
    ensures '\n' !in Message(body)
  {
  }

  /**
   * The `{"errors":{...}}` branch reports the words of the first comma
   * segment of Go's match of `{"errors":(.*?)}`, joined by single spaces,
   * or the generic message when that pattern does not match.
   */
  lemma ErrorsEnvelopeMessage(body: string)
    requires !Contains(body, HtmlMarker) && Contains(body, ErrorsMarker)
    ensures forall a: nat, b: nat :: FirstMatch(body, ErrorsPattern, a, b) ==>
      Message(body) == Join(Fields(FirstSegment(body[a + 10..b]), IsSeparator), " ")
    ensures (forall a: nat, b: nat :: !MatchAt(body, ErrorsPattern, a, b)) ==> Message(body) == Fallback
  {
    if Capture(body, ErrorsPattern).None? {
      assert NoneSatisfy(Fallback, IsSeparator);
      WordSurvivesErrorsBranch(Fallback);
    }
  }

  /**
   * The `errors` branch loses, adds and reorders nothing but separators and
   * spaces: once those are deleted, the message and the first comma segment
   * of the match are the same text.
   */
  lemma {:induction false} ErrorsMessageStripped(body: string)
    requires !Contains(body, HtmlMarker) && Contains(body, ErrorsMarker)
    ensures var segment := FirstSegment(ScrapeErrorMessage(body, ErrorsPattern));
      Remove(Message(body), IsSeparatorOrSpace) == Remove(segment, IsSeparatorOrSpace)
  {
    var segment := FirstSegment(ScrapeErrorMessage(body, ErrorsPattern));
    var words := Fields(segment, IsSeparator);
    assert Message(body) == Join(words, " ");
    RemoveJoinGlue(words, " ", IsSeparatorOrSpace);
    FieldsConcat(segment, IsSeparator);
    RemoveTwice(segment, IsSeparator, IsSeparatorOrSpace);
  }

  /** A word without separators passes through the `errors` branch unchanged. */
  lemma WordSurvivesErrorsBranch(w: string)
    requires w != [] && NoneSatisfy(w, IsSeparator)
    ensures FirstSegment(w) == w
    ensures Join(Fields(FirstSegment(w), IsSeparator), " ") == w
  {
    SpanOfWord(w, IsComma);
    FieldsOfWord(w, IsSeparator);
  }

  /** The `{"error":"..."}` branch: the text up to the first `"}`, not the first quote. */
  lemma ErrorEnvelopeMessage(body: string)
    requires !Contains(body, HtmlMarker) && !Contains(body, ErrorsMarker) && Contains(body, ErrorMarker)
    ensures forall a: nat, b: nat :: FirstMatch(body, ErrorPattern, a, b) ==> Message(body) == body[a + 10..b]
    ensures (forall a: nat, b: nat :: !MatchAt(body, ErrorPattern, a, b)) ==> Message(body) == Fallback
  {
  }

  /**
   * Two failure reports are equal exactly when their messages are: the
   * report loses nothing of the message and adds nothing that depends on
   * the status.
   */
  lemma {:induction false} ReportDeterminesMessage(status1: int, body1: string, status2: int, body2: string)
    requires status1 >= 300 && status2 >= 300
    ensures CheckReturnCode(status1, body1) == CheckReturnCode(status2, body2) <==> Message(body1) == Message(body2)
  {
    var r1, r2 := CheckReturnCode(status1, body1).value, CheckReturnCode(status2, body2).value;
    if r1 == r2 {
      assert Message(body1) == r1[|ReportPrefix|..|r1| - 1];
      assert Message(body2) == r2[|ReportPrefix|..|r2| - 1];
    }
  }

  /** A 404 page is reported by its title. */
  lemma HtmlTitleExample()
    ensures Message("<html><head>" + "<title>" + "Not Found" + "</title>" + "</head></html>") == "Not Found"
  {
    var body := "<html><head>" + "<title>" + "Not Found" + "</title>" + "</head></html>";
    assert body[0..6] == HtmlMarker;
    AbsentCharRulesOut("Not Found" + "</title", "</title>", 7);
    CaptureEnvelope("<html><head>", "Not Found", "</head></html>", TitlePattern, 2);
  }

  /** A page without a title gives the generic message. */
  lemma HtmlWithoutTitleExample()
    ensures Message("<html>" + "<body>oops</body></html>") == Fallback
  {
    var body := "<html>" + "<body>oops</body></html>";
    assert body[0..6] == HtmlMarker;
    AbsentCharRulesOut(body, "<title>", 2);
    HtmlPageMessage(body);
  }

  /** One member `"k":"m"` of a JSON object, behind the object's opening brace. */
  function Member(k: string, m: string): string
  {
    "{\"" + k + "\":\"" + m + "\""
  }

  /**
   * Only the first member of a validation envelope is reported, as its key
   * and its message joined by a space: with `k = name`, `m = is required`
   * and `tail = ,"age":"must be positive"` the body
   * `{"errors":{"name":"is required","age":"must be positive"}}` gives
   * `name is required`.
   */
  lemma ErrorsFirstMember(k: string, m: string, tail: string)
    requires k != [] && NoneSatisfy(k, IsSeparator) && '\n' !in k && '<' !in k
    requires m != [] && NoneSatisfy(m, IsSeparator) && '\n' !in m && '<' !in m
    requires tail == [] || tail[0] == ','
    requires '}' !in tail && '\n' !in tail && '<' !in tail
    ensures Message("{\"errors\":" + Member(k, m) + tail + "}}") == k + " " + m
  {
    var inner := Member(k, m) + tail;
    assert "{\"errors\":" + Member(k, m) + tail + "}}" == "{\"errors\":" + inner + "}}";
    assert inner[0] == '{';
    assert '<' !in inner by {
      assert forall i :: 0 <= i < |k| ==> k[i] != '<';
      assert forall i :: 0 <= i < |m| ==> m[i] != '<';
    }
    ErrorsEnvelopeMarkers(inner);
    ErrorsEnvelopeInner(k, m, tail);
    FirstMemberWords(k, m, tail);
  }

  lemma ErrorsEnvelopeMarkers(inner: string)
    requires '<' !in inner && |inner| > 0 && inner[0] == '{'
    ensures var body := "{\"errors\":" + inner + "}}";
      !Contains(body, HtmlMarker) && Contains(body, ErrorsMarker)
  {
    var body := "{\"errors\":" + inner + "}}";
    assert body[0..11] == ErrorsMarker;
    AbsentCharRulesOut(body, HtmlMarker, 0);
  }

  lemma ErrorsEnvelopeInner(k: string, m: string, tail: string)
    requires NoneSatisfy(k, IsSeparator) && '\n' !in k
    requires NoneSatisfy(m, IsSeparator) && '\n' !in m
    requires '}' !in tail && '\n' !in tail
    ensures Capture("{\"errors\":" + (Member(k, m) + tail) + "}}", ErrorsPattern) == Some(Member(k, m) + tail)
  {
    var inner := Member(k, m) + tail;
    assert "{\"errors\":" + inner + "}}" == "" + ErrorsPattern.open + inner + ErrorsPattern.close + "}";
    assert '}' !in inner + "" by {
      assert forall i :: 0 <= i < |k| ==> k[i] != '}';
      assert forall i :: 0 <= i < |m| ==> m[i] != '}';
    }
    AbsentCharRulesOut(inner + "", "}", 0);
    CaptureEnvelope("", inner, "}", ErrorsPattern, 0);
  }

  lemma FirstMemberWords(k: string, m: string, tail: string)
    requires k != [] && NoneSatisfy(k, IsSeparator)
    requires m != [] && NoneSatisfy(m, IsSeparator)
    requires tail == [] || tail[0] == ','
    ensures Join(Fields(FirstSegment(Member(k, m) + tail), IsSeparator), " ") == k + " " + m
  {
    FirstMemberSegment(k, m, tail);
    FirstMemberFields(k, m);
  }

  lemma FirstMemberSegment(k: string, m: string, tail: string)
    requires NoneSatisfy(k, IsSeparator) && NoneSatisfy(m, IsSeparator)
    requires tail == [] || tail[0] == ','
    ensures FirstSegment(Member(k, m) + tail) == Member(k, m)
  {
    var first := Member(k, m);
    assert ',' !in first by {
      assert forall i :: 0 <= i < |k| ==> k[i] != ',';
      assert forall i :: 0 <= i < |m| ==> m[i] != ',';
    }
    SpanOfWord(first, IsComma);
    if tail == [] {
      assert first + tail == first;
    } else {
      assert first + tail == first + [','] + tail[1..];
      SpanStopsAtSeparator(first, ',', tail[1..], IsComma);
    }
  }

  lemma FirstMemberFields(k: string, m: string)
    requires k != [] && NoneSatisfy(k, IsSeparator)
    requires m != [] && NoneSatisfy(m, IsSeparator)
    ensures Fields(Member(k, m), IsSeparator) == [k, m]
  {
    var rest := ":" + QuotedWord(m);
    var tail := k + ['"'] + rest;
    assert Member(k, m) == ['{', '"'] + tail;
    calc {
      Fields(['{', '"'] + tail, IsSeparator);
      { SeparatorsSkipped(['{', '"'], tail, IsSeparator); }
      Fields(tail, IsSeparator);
      { FieldsSplitAtSeparator(k, '"', rest, IsSeparator); FieldsOfWord(k, IsSeparator); }
      [k] + Fields(rest, IsSeparator);
      { SeparatorsSkipped([':'], QuotedWord(m), IsSeparator); FieldsOfQuotedWord(m); }
      [k] + [m];
    }
  }

  function QuotedWord(w: string): string
  {
    "\"" + w + "\""
  }

  lemma FieldsOfQuotedWord(w: string)
    requires w != [] && NoneSatisfy(w, IsSeparator)
    ensures Fields(QuotedWord(w), IsSeparator) == [w]
  {
    assert QuotedWord(w) == "" + ['"'] + (w + ['"'] + "");
    FieldsSplitAtSeparator("", '"', w + ['"'] + "", IsSeparator);
    FieldsSplitAtSeparator(w, '"', "", IsSeparator);
    FieldsOfWord(w, IsSeparator);
  }

  /**
   * A single-error envelope reports the text between `{"error":"` and the
   * first `"}`: with `v = invalid token` the body `{"error":"invalid token"}`
   * gives `invalid token`. The value may itself hold quotes (the pattern
   * does not stop at the next `"`), so `{"error":"bad","code":"x"}` gives
   * `bad","code":"x`.
   */
  lemma ErrorValue(v: string)
    requires '}' !in v && '\n' !in v && '<' !in v && '{' !in v
    ensures Message("{\"error\":\"" + v + "\"}") == v
  {
    ErrorEnvelopeMarkers(v);
    ErrorEnvelopeCapture(v);
  }

  lemma ErrorEnvelopeMarkers(v: string)
    requires '<' !in v && '{' !in v
    ensures var body := "{\"error\":\"" + v + "\"}";
      !Contains(body, HtmlMarker) && !Contains(body, ErrorsMarker) && Contains(body, ErrorMarker)
  {
    var body := "{\"error\":\"" + v + "\"}";
    assert body[0..9] == ErrorMarker;
    AbsentCharRulesOut(body, HtmlMarker, 0);
    forall j: nat | j + |ErrorsMarker| <= |body| ensures !HasAt(body, ErrorsMarker, j) {
      if j == 0 {
        MismatchBreaksOccurrence(body, ErrorsMarker, 0, 7);
      } else {
        if j < 10 {
          assert body[j] == ErrorPattern.open[j];
        } else {
          assert body[j] == v[j - 10];
        }
        MismatchBreaksOccurrence(body, ErrorsMarker, j, 0);
      }
    }
  }

  lemma ErrorEnvelopeCapture(v: string)
    requires '}' !in v && '\n' !in v
    ensures Capture("{\"error\":\"" + v + "\"}", ErrorPattern) == Some(v)
  {
    assert "{\"error\":\"" + v + "\"}" == "" + ErrorPattern.open + v + ErrorPattern.close + "";
    AbsentCharRulesOut(v + "\"", "\"}", 1);
    assert ErrorPattern.close[..|ErrorPattern.close| - 1] == "\"";
    CaptureEnvelope("", v, "", ErrorPattern, 0);
  }

  /** Plain text is reported verbatim. */
  lemma PlainTextExample()
    ensures Message("plain text failure") == "plain text failure"
  {
    AbsentCharRulesOut("plain text failure", HtmlMarker, 0);
    AbsentCharRulesOut("plain text failure", ErrorsMarker, 0);
    AbsentCharRulesOut("plain text failure", ErrorMarker, 0);
  }
}
