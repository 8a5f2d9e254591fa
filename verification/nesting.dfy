/** What the loop of `truncateHTML` (src/Tf/String/TfTruncate.php lines
    127-193) keeps track of, stated against the element nesting of the node
    stream: the pile holds exactly the open elements whose tags were copied,
    the two counters count the open ignore-content elements, and the count
    is the length of the visible text joined by single spaces. */
module Nesting {
  import opened TextUtil
  import opened Instance
  import opened TextTruncation
  import opened HtmlWalk

  // ---------------------------------------------------------------------
  // The nesting of a well-formed node stream

  /** The elements open after one more node: a non-empty start tag below
      the root opens one, an end tag below the root closes the innermost. */
  function OpenStep(open: seq<string>, tok: Token): seq<string> {
    match tok
    case Element(name, depth, isEmpty, _) => if depth > 0 && !isEmpty then open + [name] else open
    case EndElement(_, depth) => if depth > 0 && |open| > 0 then open[..|open| - 1] else open
    case Text(_) => open
    case Other(_) => open
  }

  /** An end tag below the root closes the innermost open element. */
  predicate Closes(open: seq<string>, tok: Token) {
    tok.EndElement? && tok.depth > 0 ==> |open| > 0 && open[|open| - 1] == tok.name
  }

  /** The stream XMLReader produces for well-formed markup: every end tag
      matches the innermost open element. */
  predicate WellNested(open: seq<string>, tokens: seq<Token>)
    decreases |tokens|
  {
    |tokens| == 0 || (Closes(open, tokens[0]) && WellNested(OpenStep(open, tokens[0]), tokens[1..]))
  }

  function OpenAfter(open: seq<string>, tokens: seq<Token>): seq<string>
    decreases |tokens|
  {
    if |tokens| == 0 then open else OpenAfter(OpenStep(open, tokens[0]), tokens[1..])
  }

  /** The open elements whose tags are copied to the output, outermost first. */
  function Kept(stripTags: bool, open: seq<string>): seq<string> {
    if |open| == 0 then []
    else
      var last := open[|open| - 1];
      Kept(stripTags, open[..|open| - 1]) + (if StripTag(stripTags, last) then [] else [last])
  }

  /** The number of open ignore-content elements. */
  function CountIgnored(open: seq<string>): nat {
    if |open| == 0 then 0
    else CountIgnored(open[..|open| - 1]) + (if IgnoreContentOfTag(open[|open| - 1]) then 1 else 0)
  }

  /** The number of open ignore-content elements that are also stripped. */
  function CountStrippedIgnored(stripTags: bool, open: seq<string>): nat {
    if |open| == 0 then 0
    else
      var last := open[|open| - 1];
      CountStrippedIgnored(stripTags, open[..|open| - 1])
        + (if IgnoreContentOfTag(last) && StripTag(stripTags, last) then 1 else 0)
  }

  /** The loop's pile and counters agree with the open elements `open`. */
  predicate Tracks(stripTags: bool, open: seq<string>, s: WalkState) {
    && s.pile == Kept(stripTags, open)
    && s.dontCount == CountIgnored(open)
    && s.stripContent == CountStrippedIgnored(stripTags, open)
  }

  // ---------------------------------------------------------------------
  // The visible text and the count

  /** The normalised text of a text node met while no ignore-content
      element is open; nothing for any other node. */
  function VisibleOf(t: TfTruncate, open: seq<string>, tok: Token): seq<string> {
    if tok.Text? && CountIgnored(open) == 0 then [NormalizeText(t, tok.value)] else []
  }

  /** The normalised texts the loop counts, in document order. */
  function VisibleTexts(t: TfTruncate, open: seq<string>, tokens: seq<Token>): seq<string>
    decreases |tokens|
  {
    if |tokens| == 0 then []
    else VisibleOf(t, open, tokens[0]) + VisibleTexts(t, OpenStep(open, tokens[0]), tokens[1..])
  }

  /** The count after the texts `texts`, starting from `c`. */
  function CountFrom(c: int, texts: seq<string>): int
    decreases |texts|
  {
    if |texts| == 0 then c else CountFrom(AddCounted(c, |texts[0]|), texts[1..])
  }

  /** Some text takes the running count, started at `c`, past `budget`. */
  predicate Overflows(c: int, texts: seq<string>, budget: int)
    decreases |texts|
  {
    && |texts| > 0
    && (AddCounted(c, |texts[0]|) > budget || Overflows(AddCounted(c, |texts[0]|), texts[1..], budget))
  }

  function DropLeadingEmpty(texts: seq<string>): seq<string>
    decreases |texts|
  {
    if |texts| > 0 && |texts[0]| == 0 then DropLeadingEmpty(texts[1..]) else texts
  }

  /** The visible text as one string: the texts joined by single spaces,
      leaving out the empty ones before the first non-empty one. */
  function Joined(texts: seq<string>): string {
    Implode(" ", DropLeadingEmpty(texts))
  }

  // ---------------------------------------------------------------------
  // Facts about the bookkeeping

  /** The counters are consistent: no more stripped ignore-content elements
      than ignore-content elements. */
  lemma {:induction false} StrippedIgnoredAtMostIgnored(stripTags: bool, open: seq<string>)
    ensures CountStrippedIgnored(stripTags, open) <= CountIgnored(open)
    decreases |open|
  {
    if |open| > 0 {
      StrippedIgnoredAtMostIgnored(stripTags, open[..|open| - 1]);
    }
  }

  /** The ignore counter is 0 exactly when no open element is an ignore-content one. */
  lemma {:induction false} NoIgnoredOpen(open: seq<string>)
    ensures CountIgnored(open) == 0 <==> forall k :: 0 <= k < |open| ==> !IgnoreContentOfTag(open[k])
    decreases |open|
  {
    if |open| > 0 {
      var init := open[..|open| - 1];
      NoIgnoredOpen(init);
      if CountIgnored(open) == 0 {
        forall k | 0 <= k < |open| ensures !IgnoreContentOfTag(open[k]) {
          if k < |init| {
            assert open[k] == init[k];
          }
        }
      } else if CountIgnored(init) != 0 {
        var k :| 0 <= k < |init| && IgnoreContentOfTag(init[k]);
        assert open[k] == init[k];
      }
    }
  }

  /** The pile never holds a stripped tag name, and holds the open elements
      that are not stripped, in opening order. */
  lemma KeptIsFilter(stripTags: bool, open: seq<string>)
    ensures forall k :: 0 <= k < |Kept(stripTags, open)| ==> !StripTag(stripTags, Kept(stripTags, open)[k])
    ensures forall k :: 0 <= k < |Kept(stripTags, open)| ==> Kept(stripTags, open)[k] in open
    ensures !stripTags ==> Kept(stripTags, open) == open
  {
    KeptNotStripped(stripTags, open);
    KeptAreOpen(stripTags, open);
    if !stripTags {
      KeptAllWithoutStripping(open);
    }
  }

  lemma {:induction false} KeptNotStripped(stripTags: bool, open: seq<string>)
    ensures forall k :: 0 <= k < |Kept(stripTags, open)| ==> !StripTag(stripTags, Kept(stripTags, open)[k])
    decreases |open|
  {
    if |open| > 0 {
      var init := open[..|open| - 1];
      KeptNotStripped(stripTags, init);
      var ki := Kept(stripTags, init);
      var kept := Kept(stripTags, open);
      forall k | 0 <= k < |kept| ensures !StripTag(stripTags, kept[k]) {
        if k < |ki| {
          assert kept[k] == ki[k];
        }
      }
    }
  }

  lemma {:induction false} KeptAreOpen(stripTags: bool, open: seq<string>)
    ensures forall k :: 0 <= k < |Kept(stripTags, open)| ==> Kept(stripTags, open)[k] in open
    decreases |open|
  {
    if |open| > 0 {
      var init := open[..|open| - 1];
      KeptAreOpen(stripTags, init);
      var ki := Kept(stripTags, init);
      var kept := Kept(stripTags, open);
      forall k | 0 <= k < |kept| ensures kept[k] in open {
        if k < |ki| {
          assert kept[k] == ki[k];
          assert ki[k] in init;
        } else {
          assert kept[k] == open[|open| - 1];
        }
      }
    }
  }

  lemma {:induction false} KeptAllWithoutStripping(open: seq<string>)
    ensures Kept(false, open) == open
    decreases |open|
  {
    if |open| > 0 {
      KeptAllWithoutStripping(open[..|open| - 1]);
      assert open == open[..|open| - 1] + [open[|open| - 1]];
    }
  }

  // ---------------------------------------------------------------------
  // One step keeps the bookkeeping in line

  lemma SnocInit(xs: seq<string>, x: string)
    ensures (xs + [x])[..|xs + [x]| - 1] == xs && (xs + [x])[|xs + [x]| - 1] == x
  {
  }

  /** Opening one more element adds it to the kept names unless it is
      stripped, and to the counters when it is an ignore-content element. */
  lemma OpenOneMore(stripTags: bool, open: seq<string>, name: string)
    ensures Kept(stripTags, open + [name]) ==
              Kept(stripTags, open) + (if StripTag(stripTags, name) then [] else [name])
    ensures CountIgnored(open + [name]) == CountIgnored(open) + (if IgnoreContentOfTag(name) then 1 else 0)
    ensures CountStrippedIgnored(stripTags, open + [name]) ==
              CountStrippedIgnored(stripTags, open)
                + (if IgnoreContentOfTag(name) && StripTag(stripTags, name) then 1 else 0)
  {
    SnocInit(open, name);
  }

  /** A step that does not return keeps the pile and counters in line with
      the open elements, provided an end tag closes the innermost element. */
  lemma StepTracks(t: TfTruncate, lmax: int, stripTags: bool, s: WalkState, tok: Token, open: seq<string>)
    requires Tracks(stripTags, open, s) && Closes(open, tok)
    requires Step(t, lmax, stripTags, s, tok).Continue?
    ensures Tracks(stripTags, OpenStep(open, tok), Step(t, lmax, stripTags, s, tok).next)
  {
    if tok.Element? {
      StartTagTracks(t, lmax, stripTags, s, tok, open);
    } else if tok.EndElement? {
      EndTagTracks(t, lmax, stripTags, s, tok, open);
    } else {
      var s' := Step(t, lmax, stripTags, s, tok).next;
      assert s'.pile == s.pile && s'.dontCount == s.dontCount && s'.stripContent == s.stripContent;
    }
  }

  lemma StartTagTracks(t: TfTruncate, lmax: int, stripTags: bool, s: WalkState, tok: Token, open: seq<string>)
    requires Tracks(stripTags, open, s) && tok.Element?
    ensures Step(t, lmax, stripTags, s, tok).Continue?
    ensures Tracks(stripTags, OpenStep(open, tok), Step(t, lmax, stripTags, s, tok).next)
  {
    if tok.depth > 0 && !tok.isEmpty {
      OpenOneMore(stripTags, open, tok.name);
    }
  }

  lemma EndTagTracks(t: TfTruncate, lmax: int, stripTags: bool, s: WalkState, tok: Token, open: seq<string>)
    requires Tracks(stripTags, open, s) && tok.EndElement? && Closes(open, tok)
    ensures Step(t, lmax, stripTags, s, tok).Continue?
    ensures Tracks(stripTags, OpenStep(open, tok), Step(t, lmax, stripTags, s, tok).next)
  {
    if tok.depth > 0 {
      var init := open[..|open| - 1];
      assert open == init + [tok.name];
      OpenOneMore(stripTags, init, tok.name);
      SnocInit(Kept(stripTags, init), tok.name);
    }
  }

  /** A step that does not return raises the count as the visible text of
      the node says. */
  lemma StepCount(t: TfTruncate, lmax: int, stripTags: bool, s: WalkState, tok: Token, open: seq<string>)
    requires Tracks(stripTags, open, s)
    requires Step(t, lmax, stripTags, s, tok).Continue?
    ensures Step(t, lmax, stripTags, s, tok).next.count == CountFrom(s.count, VisibleOf(t, open, tok))
    ensures !Overflows(s.count, VisibleOf(t, open, tok), Budget(t, lmax))
  {
    StepStopsOnlyOverBudget(t, lmax, stripTags, s, tok);
  }

  lemma {:induction false} CountFromAppend(c: int, xs: seq<string>, ys: seq<string>)
    ensures CountFrom(c, xs + ys) == CountFrom(CountFrom(c, xs), ys)
    decreases |xs|
  {
    if |xs| > 0 {
      assert (xs + ys)[0] == xs[0] && (xs + ys)[1..] == xs[1..] + ys;
      CountFromAppend(AddCounted(c, |xs[0]|), xs[1..], ys);
    } else {
      assert xs + ys == ys;
    }
  }

  /** Overflowing `xs + ys` is overflowing `xs`, or reaching the end of
      `xs` and then overflowing `ys`. */
  lemma {:induction false} OverflowsAppend(c: int, xs: seq<string>, ys: seq<string>, budget: int)
    ensures Overflows(c, xs + ys, budget) <==>
              Overflows(c, xs, budget) || Overflows(CountFrom(c, xs), ys, budget)
    decreases |xs|
  {
    if |xs| > 0 {
      assert (xs + ys)[0] == xs[0] && (xs + ys)[1..] == xs[1..] + ys;
      OverflowsAppend(AddCounted(c, |xs[0]|), xs[1..], ys, budget);
    } else {
      assert xs + ys == ys;
    }
  }

  // ---------------------------------------------------------------------
  // The whole loop

  /** Over a well-nested stream the loop returns exactly when some visible
      text takes the count past the budget; otherwise it ends with the pile
      and counters in line with the elements left open and the count of all
      the visible text. */
  lemma {:induction false} WalkTracks(t: TfTruncate, lmax: int, stripTags: bool, tokens: seq<Token>, s: WalkState, open: seq<string>)
    requires Tracks(stripTags, open, s) && WellNested(open, tokens)
    ensures var w := Walk(t, lmax, stripTags, tokens, s);
            var v := VisibleTexts(t, open, tokens);
            && (w.Cut? <==> Overflows(s.count, v, Budget(t, lmax)))
            && (w.Exhausted? ==>
                  && Tracks(stripTags, OpenAfter(open, tokens), w.final)
                  && w.final.count == CountFrom(s.count, v))
    decreases |tokens|
  {
    if |tokens| > 0 {
      var tok := tokens[0];
      var head := VisibleOf(t, open, tok);
      var rest := VisibleTexts(t, OpenStep(open, tok), tokens[1..]);
      OverflowsAppend(s.count, head, rest, Budget(t, lmax));
      CountFromAppend(s.count, head, rest);
      StepStopsOnlyOverBudget(t, lmax, stripTags, s, tok);
      match Step(t, lmax, stripTags, s, tok)
      case Stop(_) =>
        assert Overflows(s.count, head, Budget(t, lmax));
      case Continue(s') =>
        StepTracks(t, lmax, stripTags, s, tok, open);
        StepCount(t, lmax, stripTags, s, tok, open);
        WalkTracks(t, lmax, stripTags, tokens[1..], s', OpenStep(open, tok));
    }
  }

  /** Well-nestedness and the open elements of a prefix. */
  lemma {:induction false} WellNestedPrefix(open: seq<string>, tokens: seq<Token>, i: int)
    requires WellNested(open, tokens) && 0 <= i <= |tokens|
    ensures WellNested(open, tokens[..i])
    decreases |tokens|
  {
    if i > 0 {
      assert tokens[..i][0] == tokens[0] && tokens[..i][1..] == tokens[1..][..i - 1];
      WellNestedPrefix(OpenStep(open, tokens[0]), tokens[1..], i - 1);
    }
  }

  // ---------------------------------------------------------------------
  // The count is the length of the joined visible text

  lemma {:induction false} CountFromPositive(c: int, texts: seq<string>)
    requires c > 0
    ensures CountFrom(c, texts) == c + (if |texts| == 0 then 0 else 1 + |Implode(" ", texts)|)
    decreases |texts|
  {
    if |texts| > 0 {
      CountFromPositive(AddCounted(c, |texts[0]|), texts[1..]);
    }
  }

  /** Counting from 0 measures the visible texts joined by single spaces. */
  lemma {:induction false} CountIsJoinedLength(texts: seq<string>)
    ensures CountFrom(0, texts) == |Joined(texts)|
    decreases |texts|
  {
    if |texts| > 0 {
      if |texts[0]| == 0 {
        CountIsJoinedLength(texts[1..]);
      } else {
        CountFromPositive(|texts[0]|, texts[1..]);
      }
    }
  }

  /** From a count within a non-negative budget, some text overflows
      exactly when the final count is over the budget: the count never
      decreases. */
  lemma {:induction false} OverflowsIffFinalCount(c: int, texts: seq<string>, budget: int)
    requires 0 <= c <= budget
    ensures Overflows(c, texts, budget) <==> CountFrom(c, texts) > budget
    decreases |texts|
  {
    if |texts| > 0 {
      var c' := AddCounted(c, |texts[0]|);
      if c' > budget {
        CountFromAtLeast(c', texts[1..]);
      } else {
        OverflowsIffFinalCount(c', texts[1..], budget);
      }
    }
  }

  lemma {:induction false} CountFromAtLeast(c: int, texts: seq<string>)
    requires c >= 0
    ensures CountFrom(c, texts) >= c
    decreases |texts|
  {
    if |texts| > 0 {
      CountFromAtLeast(AddCounted(c, |texts[0]|), texts[1..]);
    }
  }

  // ---------------------------------------------------------------------
  // What the loop does, from its initial state

  /** With a non-negative budget the loop over a well-nested stream returns
      a truncation exactly when the visible text, joined by single spaces,
      is longer than the budget `lmax - |cplt|`. */
  lemma WalkCutsExactlyWhenTooLong(t: TfTruncate, lmax: int, stripTags: bool, tokens: seq<Token>)
    requires WellNested([], tokens)
    requires Budget(t, lmax) >= 0
    ensures Walk(t, lmax, stripTags, tokens, Start).Cut? <==>
              |Joined(VisibleTexts(t, [], tokens))| > Budget(t, lmax)
  {
    var v := VisibleTexts(t, [], tokens);
    WalkTracks(t, lmax, stripTags, tokens, Start, []);
    OverflowsIffFinalCount(0, v, Budget(t, lmax));
    CountIsJoinedLength(v);
  }

  /** With a negative budget, that is a marker longer than the limit, the
      loop over a well-nested stream returns at the first visible text,
      whatever its length, and runs to the end only when there is none. */
  lemma WalkCutsAtFirstTextWhenBudgetNegative(t: TfTruncate, lmax: int, stripTags: bool, tokens: seq<Token>)
    requires WellNested([], tokens)
    requires Budget(t, lmax) < 0
    ensures Walk(t, lmax, stripTags, tokens, Start).Cut? <==> |VisibleTexts(t, [], tokens)| > 0
  {
    var v := VisibleTexts(t, [], tokens);
    WalkTracks(t, lmax, stripTags, tokens, Start, []);
    assert |v| > 0 ==> AddCounted(0, |v[0]|) > Budget(t, lmax);
  }

  /** When the loop runs out of nodes, the pile holds the unclosed elements
      whose tags were copied, the counters count the unclosed ignore-content
      elements, and the count is the length of the joined visible text,
      within the budget unless it is 0. */
  lemma WalkEndState(t: TfTruncate, lmax: int, stripTags: bool, tokens: seq<Token>)
    requires WellNested([], tokens)
    requires Walk(t, lmax, stripTags, tokens, Start).Exhausted?
    ensures var f := Walk(t, lmax, stripTags, tokens, Start).final;
            var open := OpenAfter([], tokens);
            && f.pile == Kept(stripTags, open)
            && f.dontCount == CountIgnored(open)
            && 0 <= f.stripContent <= f.dontCount
            && f.count == |Joined(VisibleTexts(t, [], tokens))|
            && (f.count == 0 || f.count <= Budget(t, lmax))
  {
    var open := OpenAfter([], tokens);
    WalkTracks(t, lmax, stripTags, tokens, Start, []);
    CountIsJoinedLength(VisibleTexts(t, [], tokens));
    StrippedIgnoredAtMostIgnored(stripTags, open);
    WalkCountWithinBudget(t, lmax, stripTags, tokens, Start);
  }

  /** At the node `i` where the loop returns, the result is the cut of
      that node's text (`CutAt`: the markup built so far, the text
      truncated, and one closing tag per pile entry, outermost first), and
      the pile holds exactly the elements open at that point whose tags were
      copied. */
  lemma CutClosesCopiedElements(t: TfTruncate, lmax: int, stripTags: bool, tokens: seq<Token>, i: int)
    requires WellNested([], tokens)
    requires 0 <= i < |tokens| && StopsAt(t, lmax, stripTags, tokens, Start, i)
    ensures Walk(t, lmax, stripTags, tokens, Start).Cut? && tokens[i].Text?
    ensures var s := Walk(t, lmax, stripTags, tokens[..i], Start).final;
            && Walk(t, lmax, stripTags, tokens, Start).result == CutAt(t, lmax, s, NormalizeText(t, tokens[i].value))
            && s.pile == Kept(stripTags, OpenAfter([], tokens[..i]))
  {
    TracksAtPrefix(t, lmax, stripTags, tokens, i);
    CutResultAt(t, lmax, stripTags, tokens, i);
  }

  /** After any prefix the loop consumes without returning, the pile and
      counters are in line with the elements the prefix leaves open. */
  lemma TracksAtPrefix(t: TfTruncate, lmax: int, stripTags: bool, tokens: seq<Token>, i: int)
    requires WellNested([], tokens) && 0 <= i <= |tokens|
    requires Walk(t, lmax, stripTags, tokens[..i], Start).Exhausted?
    ensures Tracks(stripTags, OpenAfter([], tokens[..i]), Walk(t, lmax, stripTags, tokens[..i], Start).final)
  {
    WellNestedPrefix([], tokens, i);
    WalkTracks(t, lmax, stripTags, tokens[..i], Start, []);
  }

  lemma CutResultAt(t: TfTruncate, lmax: int, stripTags: bool, tokens: seq<Token>, i: int)
    requires 0 <= i < |tokens| && StopsAt(t, lmax, stripTags, tokens, Start, i)
    ensures tokens[i].Text? && Walk(t, lmax, stripTags, tokens, Start).Cut?
    ensures Walk(t, lmax, stripTags, tokens, Start).result ==
              CutAt(t, lmax, Walk(t, lmax, stripTags, tokens[..i], Start).final, NormalizeText(t, tokens[i].value))
  {
    var s := Walk(t, lmax, stripTags, tokens[..i], Start).final;
    StopIsTheResult(t, lmax, stripTags, tokens, Start, i);
    StopResult(t, lmax, stripTags, s, tokens[i]);
  }
}
