/** `truncateHTML` (src/Tf/String/TfTruncate.php lines 106-203): the error
    bookkeeping around the token loop, the fallback to `truncateText` when
    the markup cannot be read, and the loop itself as a method. */
module HtmlTruncation {
  import opened Options
  import opened TextUtil
  import opened Instance
  import opened TextTruncation
  import opened HtmlWalk
  import opened Nesting

  /** What XMLReader makes of the wrapped markup: it cannot open it at all
      (line 123), or it yields the nodes it reads before `read()` fails or
      the input ends, along with the diagnostics libxml collected. */
  datatype Parse = OpenFailed | Opened(tokens: seq<Token>, diagnostics: seq<string>)

  /** The returned string and the truncator's state afterwards. */
  datatype Outcome = Outcome(result: string, after: TfTruncate)

  /** The truncator with the errors of a previous call forgotten (lines 120-121). */
  function Cleared(t: TfTruncate): TfTruncate {
    t.(error := None, errors := None)
  }

  /** `truncateHTML(html, lmax, stripTags)`. When the reader cannot open
      the markup, or reading it produced diagnostics before the limit was
      reached, the markup is truncated as plain text instead and the error
      kind recorded; a cut in the loop returns at once; markup read to the
      end within the limit is returned unchanged. */
  function TruncateHtml(t: TfTruncate, html: string, lmax: int, stripTags: bool, parse: Parse): (o: Outcome)
    ensures o.after.cplt == t.cplt && o.after.stripMarkup == t.stripMarkup
    ensures o.after.decodeEntities == t.decodeEntities
    ensures o.after.error.Some? ==> o.result == TruncateText(t, html, lmax, true)
    ensures o.after.error == Some(OpeningXml) <==> parse.OpenFailed?
    ensures o.after.error == Some(ParsingXml) <==>
              o.after.errors.Some? && |o.after.errors.value| > 0
    ensures o.after.errors.Some? ==> parse.Opened? && o.after.errors.value == parse.diagnostics
    ensures parse.Opened? && Walk(t, lmax, stripTags, parse.tokens, Start).Cut? ==>
              && o.result == Walk(t, lmax, stripTags, parse.tokens, Start).result
              && o.after.error == None && o.after.errors == None
    ensures parse.Opened? && |parse.diagnostics| > 0 && Walk(t, lmax, stripTags, parse.tokens, Start).Exhausted? ==>
              && o.result == TruncateText(t, html, lmax, true)
              && o.after.error == Some(ParsingXml) && o.after.errors == Some(parse.diagnostics)
    ensures parse.Opened? && |parse.diagnostics| == 0 && Walk(t, lmax, stripTags, parse.tokens, Start).Exhausted? ==>
              o.result == html && o.after.error == None && o.after.errors == Some([])
  {
    match parse
    case OpenFailed =>
      Outcome(TruncateText(t, html, lmax, true), Cleared(t).(error := Some(OpeningXml)))
    case Opened(tokens, diagnostics) =>
      match Walk(t, lmax, stripTags, tokens, Start)
      case Cut(r) => Outcome(r, Cleared(t))
      case Exhausted(_) =>
        if |diagnostics| > 0 then
          Outcome(TruncateText(t, html, lmax, true), t.(error := Some(ParsingXml), errors := Some(diagnostics)))
        else
          Outcome(html, Cleared(t).(errors := Some([])))
  }

  /** The outcome does not depend on the errors left by an earlier call. */
  lemma PriorErrorsIrrelevant(t: TfTruncate, e: Option<XmlError>, es: Option<seq<string>>,
                              html: string, lmax: int, stripTags: bool, parse: Parse)
    ensures TruncateHtml(t.(error := e, errors := es), html, lmax, stripTags, parse) ==
            TruncateHtml(t, html, lmax, stripTags, parse)
  {
    var u := t.(error := e, errors := es);
    assert Cleared(u) == Cleared(t);
    assert forall text, l, h :: TruncateText(u, text, l, h) == TruncateText(t, text, l, h);
    forall tokens: seq<Token>, s: WalkState ensures Walk(u, lmax, stripTags, tokens, s) == Walk(t, lmax, stripTags, tokens, s) {
      WalkIgnoresErrors(t, u, lmax, stripTags, tokens, s);
    }
  }

  /** The loop reads only the marker and the two collaborators of the truncator. */
  lemma {:induction false} WalkIgnoresErrors(t: TfTruncate, u: TfTruncate, lmax: int, stripTags: bool, tokens: seq<Token>, s: WalkState)
    requires u.cplt == t.cplt && u.stripMarkup == t.stripMarkup && u.decodeEntities == t.decodeEntities
    ensures Walk(u, lmax, stripTags, tokens, s) == Walk(t, lmax, stripTags, tokens, s)
    decreases |tokens|
  {
    if |tokens| > 0 {
      assert Step(u, lmax, stripTags, s, tokens[0]) == Step(t, lmax, stripTags, s, tokens[0]);
      match Step(t, lmax, stripTags, s, tokens[0])
      case Stop(_) =>
      case Continue(s') => WalkIgnoresErrors(t, u, lmax, stripTags, tokens[1..], s');
    }
  }

  /** For markup that reads without diagnostics into a well-nested stream,
      and a limit that leaves room for the marker: the markup comes back
      unchanged, with no error, exactly when its visible text joined by
      single spaces fits the budget; otherwise the loop's cut is returned,
      again with no error. */
  lemma CleanMarkupTruncatedExactlyWhenTooLong(t: TfTruncate, html: string, lmax: int, stripTags: bool,
                                               tokens: seq<Token>)
    requires WellNested([], tokens)
    requires Budget(t, lmax) >= 0
    ensures var o := TruncateHtml(t, html, lmax, stripTags, Opened(tokens, []));
            var fits := |Joined(VisibleTexts(t, [], tokens))| <= Budget(t, lmax);
            && o.after.error == None
            && (fits ==> o.result == html && o.after.errors == Some([]))
            && (!fits ==> Walk(t, lmax, stripTags, tokens, Start).Cut?
                          && o.result == Walk(t, lmax, stripTags, tokens, Start).result
                          && o.after.errors == None)
  {
    WalkCutsExactlyWhenTooLong(t, lmax, stripTags, tokens);
  }

  /** For markup that reads without diagnostics into a well-nested stream,
      and a marker longer than the limit: the markup comes back unchanged
      exactly when it has no visible text at all; otherwise the first
      visible text cuts. No error is recorded either way. */
  lemma CleanMarkupWithNegativeBudget(t: TfTruncate, html: string, lmax: int, stripTags: bool,
                                      tokens: seq<Token>)
    requires WellNested([], tokens)
    requires Budget(t, lmax) < 0
    ensures var o := TruncateHtml(t, html, lmax, stripTags, Opened(tokens, []));
            var none := |VisibleTexts(t, [], tokens)| == 0;
            && o.after.error == None
            && (none ==> o.result == html && o.after.errors == Some([]))
            && (!none ==> Walk(t, lmax, stripTags, tokens, Start).Cut?
                          && o.result == Walk(t, lmax, stripTags, tokens, Start).result
                          && o.after.errors == None)
  {
    WalkCutsAtFirstTextWhenBudgetNegative(t, lmax, stripTags, tokens);
  }

  /** The loop of lines 127-193 as written, with its early return. */
  method TruncateHtmlLoop(t: TfTruncate, html: string, lmax: int, stripTags: bool, parse: Parse)
    returns (result: string, after: TfTruncate)
    ensures Outcome(result, after) == TruncateHtml(t, html, lmax, stripTags, parse)
  {
    after := Cleared(t);
    if parse.OpenFailed? {
      after := after.(error := Some(OpeningXml));
      result := TruncateText(t, html, lmax, true);
      return;
    }
    var tokens := parse.tokens;
    var s := Start;
    var i := 0;
    while i < |tokens|
      invariant 0 <= i <= |tokens|
      invariant Walk(t, lmax, stripTags, tokens, Start) == Walk(t, lmax, stripTags, tokens[i..], s)
    {
      assert tokens[i..][0] == tokens[i] && tokens[i..][1..] == tokens[i + 1..];
      var step := Step(t, lmax, stripTags, s, tokens[i]);
      if step.Stop? {
        result := step.result;
        return;
      }
      s := step.next;
      i := i + 1;
    }
    assert tokens[i..] == [];
    after := after.(errors := Some(parse.diagnostics));
    if |parse.diagnostics| > 0 {
      after := after.(error := Some(ParsingXml));
      result := TruncateText(t, html, lmax, true);
      return;
    }
    result := html;
  }

  /** A concrete instance: `<p>Hello world</p>` cut to 8 with the default
      marker becomes `<p>Hello...</p>`: the count 11 passes the budget 5,
      the text is cut before the space, and the paragraph is closed. */
  lemma ParagraphExample(t: TfTruncate, html: string, tokens: seq<Token>)
    requires t.cplt == "..." && t.decodeEntities("Hello world") == "Hello world"
    requires html == "<p>Hello world</p>"
    requires tokens == [Element("root", 0, false, []), Element("p", 1, false, []), Text("Hello world"),
                        EndElement("p", 1), EndElement("root", 0)]
    ensures TruncateHtml(t, html, 8, false, Opened(tokens, [])) == Outcome("<p>Hello...</p>", Cleared(t))
  {
    var s := WalkState("<p>", ["p"], 0, 0, 0);
    assert Walk(t, 8, false, tokens, Start) == Walk(t, 8, false, tokens[1..], Start) by {
      assert Step(t, 8, false, Start, tokens[0]) == Continue(Start);
    }
    assert Walk(t, 8, false, tokens[1..], Start) == Walk(t, 8, false, tokens[2..], s) by {
      assert tokens[1..][0] == tokens[1] && tokens[1..][1..] == tokens[2..];
      assert Step(t, 8, false, Start, tokens[1]) == Continue(s);
    }
    assert Walk(t, 8, false, tokens[2..], s) == Cut("<p>Hello...</p>") by {
      ParagraphStop(t, s, tokens[2..][0]);
    }
  }

  /** The text node of the example stops the loop with the cut paragraph. */
  lemma ParagraphStop(t: TfTruncate, s: WalkState, tok: Token)
    requires t.cplt == "..." && t.decodeEntities("Hello world") == "Hello world"
    requires s == WalkState("<p>", ["p"], 0, 0, 0) && tok == Text("Hello world")
    ensures Step(t, 8, false, s, tok) == Stop("<p>Hello...</p>")
  {
    var text := tok.value;
    HelloWorldFacts(text);
    assert NormalizeText(t, text) == text by {
      TrimSpec(text);
      CollapsedUnchanged(text);
    }
    assert TruncateText(t, text, 8, false) == "Hello..." by {
      TrimSpec(text);
      LookaheadOnSpace("...", text, 8, 5);
    }
    assert Step(t, 8, false, s, tok).Stop? by {
      StepStopsOnlyOverBudget(t, 8, false, s, tok);
    }
    assert CutAt(t, 8, s, text) == s.out + TruncateText(t, text, 8, false) + CloseTag("p") by {
      CutAtShape(t, 8, s, text);
      assert CloseAll(s.pile) == CloseTag(s.pile[0]) + CloseAll([]);
    }
    ParagraphConcat(s.out, "Hello...", "p");
    StopResult(t, 8, false, s, tok);
  }

  lemma HelloWorldFacts(text: string)
    requires text == "Hello world"
    ensures |text| == 11 && IsCollapsed(text) && IsTrimmed(text)
    ensures IsSpace(text[5]) && !IsSpace(text[4]) && '\n' !in text[..5] && AllSpace(text[5..5])
    ensures text[..5] + "..." == "Hello..."
  {
    forall i | 0 <= i < |text| && i != 5 ensures !IsAsciiSpace(text[i]) {
      assert 'A' <= text[i] <= 'z';
    }
  }

  lemma ParagraphConcat(a: string, b: string, c: string)
    requires a == "<p>" && b == "Hello..." && c == "p"
    ensures a + b + CloseTag(c) == "<p>Hello...</p>"
  {
  }
}
