/** The token loop of `truncateHTML` (src/Tf/String/TfTruncate.php lines
    127-193) as a step function over an explicit state record, folded over
    the node stream XMLReader would produce. */
module HtmlWalk {
  import opened TextUtil
  import opened Instance
  import opened TextTruncation

  datatype Attr = Attr(name: string, value: string)

  /** One node of the reader's stream. `depth` is the nesting depth the
      reader reports (0 for the synthetic `<root>` wrapper); `isEmpty` marks
      a self-closing element, which has no end node. `Other` stands for every
      remaining node kind (white space, CDATA, comments, ...), of which only
      the value is used. */
  datatype Token =
    | Element(name: string, depth: nat, isEmpty: bool, attrs: seq<Attr>)
    | EndElement(name: string, depth: nat)
    | Text(value: string)
    | Other(value: string)

  /** The loop's local variables: the rebuilt markup `out`, the stack
      `pile` of element names whose start tag was copied, the number of
      open ignore-content elements `dontCount`, the number of those that are
      also stripped `stripContent`, and the visible character `count`. */
  datatype WalkState = WalkState(out: string, pile: seq<string>, dontCount: int, stripContent: int, count: int)

  /** The state before the first node (lines 108-111, 127). */
  const Start: WalkState := WalkState("", [], 0, 0, 0)

  /** The attributes as lines 138-142 print them: ` name="value"` each. */
  function SerializeAttrs(attrs: seq<Attr>): string {
    if |attrs| == 0 then ""
    else " " + attrs[0].name + "=\"" + attrs[0].value + "\"" + SerializeAttrs(attrs[1..])
  }

  /** Each attribute is printed on its own, in order: a single attribute
      gives ` name="value"`, and the attributes of a concatenation print as
      those of each part in turn. */
  lemma {:induction false} SerializeAttrsAppend(a: seq<Attr>, b: seq<Attr>)
    ensures SerializeAttrs(a + b) == SerializeAttrs(a) + SerializeAttrs(b)
    ensures |a| == 1 ==> SerializeAttrs(a) == " " + a[0].name + "=\"" + a[0].value + "\""
    decreases |a|
  {
    if |a| == 0 {
      assert a + b == b;
    } else {
      assert (a + b)[0] == a[0] && (a + b)[1..] == a[1..] + b;
      SerializeAttrsAppend(a[1..], b);
      if |a| == 1 {
        assert a[1..] == [];
      }
    }
  }

  function CloseTag(name: string): string {
    "</" + name + ">"
  }

  /** `array_pop`: the last element removed; an empty stack stays empty. */
  function Pop(pile: seq<string>): seq<string> {
    if |pile| == 0 then pile else pile[..|pile| - 1]
  }

  /** The closers appended at the cut (line 183), as written:
      `'</' . implode('></', $pile) . '>'`, or nothing for an empty pile. */
  function ClosingTags(pile: seq<string>): string {
    if |pile| == 0 then "" else "</" + Implode("></", pile) + ">"
  }

  /** One closing tag per name, in the order of the sequence. */
  function CloseAll(names: seq<string>): string {
    if |names| == 0 then "" else CloseTag(names[0]) + CloseAll(names[1..])
  }

  /** The closers come out in push order, first-opened element first: they
      are not reversed. */
  lemma {:induction false} ClosingTagsInPushOrder(pile: seq<string>)
    ensures ClosingTags(pile) == CloseAll(pile)
    decreases |pile|
  {
    if |pile| == 1 {
      assert CloseAll(pile) == CloseTag(pile[0]) + CloseAll([]);
    } else if |pile| > 1 {
      var rest := pile[1..];
      ClosingTagsInPushOrder(rest);
      calc {
        ClosingTags(pile);
        "</" + (pile[0] + "></" + Implode("></", rest)) + ">";
        { assert "></" == ">" + "</"; }
        ("</" + pile[0] + ">") + ("</" + Implode("></", rest) + ">");
        CloseTag(pile[0]) + ClosingTags(rest);
      }
    }
  }

  /** With `<p>` opened before `<b>`, the cut closes `</p></b>`. */
  lemma ClosersExample()
    ensures ClosingTags(["p", "b"]) == "</p></b>"
  {
    ClosingTagsInPushOrder(["p", "b"]);
    assert CloseAll(["b"]) == "</b>" + CloseAll([]);
  }

  /** Lines 175-178: the text node's value, entity-decoded, trimmed and
      with its white-space runs collapsed. */
  function NormalizeText(t: TfTruncate, value: string): string {
    CollapseSpaces(Trim(t.decodeEntities(value)))
  }

  /** Lines 179-180: `c` characters more, plus one for the implied word
      separator when something has been counted already. */
  function AddCounted(count: int, c: int): int {
    (if count != 0 then count + 1 else count) + c
  }

  /** The `default` branch (lines 187-191): the node's raw value is copied
      unless a stripped ignore-content element is open. */
  function CopyValue(s: WalkState, value: string): WalkState {
    if s.stripContent == 0 then s.(out := s.out + value) else s
  }

  /** Line 183: the markup so far, the text node cut to the part of the
      limit it may still use, and the closers. */
  function CutAt(t: TfTruncate, lmax: int, s: WalkState, text: string): string {
    var count := AddCounted(s.count, |text|);
    s.out + TruncateText(t, text, |text| + lmax - count, false) + ClosingTags(s.pile)
  }

  datatype StepResult = Continue(next: WalkState) | Stop(result: string)

  /** One pass of the loop body (lines 129-192) on one node. `continue`
      inside the `switch` acts like `break`; the text case has no `break`
      and falls through to `default`. */
  function Step(t: TfTruncate, lmax: int, stripTags: bool, s: WalkState, tok: Token): StepResult {
    match tok
    case Element(name, depth, isEmpty, attrs) =>
      if depth == 0 then Continue(s)
      else
        var strip := StripTag(stripTags, name);
        var out := if strip then s.out else s.out + "<" + name + SerializeAttrs(attrs);
        if isEmpty then
          Continue(s.(out := if strip then out else out + " />"))
        else
          var ignore := IgnoreContentOfTag(name);
          var dontCount := if ignore then s.dontCount + 1 else s.dontCount;
          var stripContent := if ignore && strip then s.stripContent + 1 else s.stripContent;
          if strip then
            Continue(s.(dontCount := dontCount, stripContent := stripContent))
          else
            Continue(s.(out := out + ">", pile := s.pile + [name],
                        dontCount := dontCount, stripContent := stripContent))
    case EndElement(name, depth) =>
      if depth == 0 then Continue(s)
      else
        var strip := StripTag(stripTags, name);
        var ignore := IgnoreContentOfTag(name);
        var dontCount := if ignore then s.dontCount - 1 else s.dontCount;
        var stripContent := if ignore && strip then s.stripContent - 1 else s.stripContent;
        if strip then
          Continue(s.(dontCount := dontCount, stripContent := stripContent))
        else
          Continue(s.(out := s.out + CloseTag(name), pile := Pop(s.pile),
                      dontCount := dontCount, stripContent := stripContent))
    case Text(value) =>
      if s.dontCount == 0 then
        var text := NormalizeText(t, value);
        var c := |text|;
        var count := AddCounted(s.count, c);
        if count > Budget(t, lmax) then
          Stop(CutAt(t, lmax, s, text))
        else
          Continue(CopyValue(s.(count := count), value))
      else
        Continue(CopyValue(s, value))
    case Other(value) =>
      Continue(CopyValue(s, value))
  }

  /** How the loop ends: returning at a cut, or running out of nodes. */
  datatype WalkEnd = Cut(result: string) | Exhausted(final: WalkState)

  /** The `while (@$reader->read())` loop from state `s` over `tokens`. */
  function Walk(t: TfTruncate, lmax: int, stripTags: bool, tokens: seq<Token>, s: WalkState): WalkEnd
    decreases |tokens|
  {
    if |tokens| == 0 then Exhausted(s)
    else
      match Step(t, lmax, stripTags, s, tokens[0])
      case Stop(r) => Cut(r)
      case Continue(s') => Walk(t, lmax, stripTags, tokens[1..], s')
  }

  // ---------------------------------------------------------------------
  // One step

  /** The loop stops exactly at a text node met while no ignore-content
      element is open, whose characters (and separator) take the count past
      the budget `lmax - |cplt|`. */
  lemma StepStopsOnlyOverBudget(t: TfTruncate, lmax: int, stripTags: bool, s: WalkState, tok: Token)
    ensures Step(t, lmax, stripTags, s, tok).Stop? <==>
              && tok.Text?
              && s.dontCount == 0
              && AddCounted(s.count, |NormalizeText(t, tok.value)|) > Budget(t, lmax)
  {
    match tok
    case Text(v) =>
    case Element(_, _, _, _) =>
    case EndElement(_, _) =>
    case Other(_) =>
  }

  /** At a stop the loop returns the markup so far, the node's text cut to
      the part of the limit this node may use, and a closing tag for every
      element on the pile, in push order. */
  lemma StopResult(t: TfTruncate, lmax: int, stripTags: bool, s: WalkState, tok: Token)
    requires Step(t, lmax, stripTags, s, tok).Stop?
    ensures tok.Text?
    ensures Step(t, lmax, stripTags, s, tok).result == CutAt(t, lmax, s, NormalizeText(t, tok.value))
  {
    StepStopsOnlyOverBudget(t, lmax, stripTags, s, tok);
  }

  /** The cut's result: the markup so far, the text truncated to what the
      budget leaves for it, and one closing tag per open element, first
      opened first. */
  lemma CutAtShape(t: TfTruncate, lmax: int, s: WalkState, text: string)
    ensures CutAt(t, lmax, s, text) ==
              s.out + TruncateText(t, text, |text| + lmax - AddCounted(s.count, |text|), false) + CloseAll(s.pile)
  {
    assert CutAt(t, lmax, s, text) ==
             s.out + TruncateText(t, text, |text| + lmax - AddCounted(s.count, |text|), false) + ClosingTags(s.pile);
    ClosingTagsInPushOrder(s.pile);
  }

  /** Only text met while no ignore-content element is open is counted:
      by its length, plus a separator of 1 when the count is already
      non-zero. Every other node leaves the count alone, so it never
      decreases; and the markup built so far is only ever extended. */
  lemma StepCounting(t: TfTruncate, lmax: int, stripTags: bool, s: WalkState, tok: Token)
    requires s.count >= 0
    requires Step(t, lmax, stripTags, s, tok).Continue?
    ensures var s' := Step(t, lmax, stripTags, s, tok).next;
            && s'.count >= s.count
            && (tok.Text? && s.dontCount == 0 ==>
                  s'.count == s.count + |NormalizeText(t, tok.value)| + (if s.count > 0 then 1 else 0))
            && (!(tok.Text? && s.dontCount == 0) ==> s'.count == s.count)
            && s.out <= s'.out
  {
  }

  /** A name is pushed only for a non-empty start tag that is not stripped,
      and popped only for an end tag that is not stripped; no other node
      touches the pile. */
  lemma StepPile(t: TfTruncate, lmax: int, stripTags: bool, s: WalkState, tok: Token)
    requires Step(t, lmax, stripTags, s, tok).Continue?
    ensures var s' := Step(t, lmax, stripTags, s, tok).next;
            && (|s'.pile| > |s.pile| ==>
                  && tok.Element? && tok.depth > 0 && !tok.isEmpty && !StripTag(stripTags, tok.name)
                  && s'.pile == s.pile + [tok.name])
            && (|s'.pile| < |s.pile| ==>
                  && tok.EndElement? && tok.depth > 0 && !StripTag(stripTags, tok.name)
                  && s'.pile == s.pile[..|s.pile| - 1])
            && (s'.pile != s.pile ==> tok.Element? || tok.EndElement?)
            && (tok.Element? && tok.depth > 0 && !tok.isEmpty && !StripTag(stripTags, tok.name) ==>
                  s'.pile == s.pile + [tok.name])
            && (tok.EndElement? && tok.depth > 0 && !StripTag(stripTags, tok.name) && |s.pile| > 0 ==>
                  |s'.pile| < |s.pile|)
            && (tok.EndElement? && |s.pile| == 0 ==> s'.pile == [])
  {
  }

  /** Stripped tags, and the synthetic root at depth 0, produce no output
      and leave the pile and the count alone. */
  lemma StrippedTagsInert(t: TfTruncate, lmax: int, stripTags: bool, s: WalkState, tok: Token)
    requires tok.Element? || tok.EndElement?
    requires tok.depth == 0 || StripTag(stripTags, tok.name)
    ensures Step(t, lmax, stripTags, s, tok).Continue?
    ensures var s' := Step(t, lmax, stripTags, s, tok).next;
            s'.out == s.out && s'.pile == s.pile && s'.count == s.count
  {
  }

  /** The ignore-content counters: a non-empty ignore-content start tag
      raises `dontCount` (and `stripContent` when the tag is stripped), its
      end tag lowers them, and nothing else, a self-closing ignore-content
      element included, changes them. */
  lemma StepCounters(t: TfTruncate, lmax: int, stripTags: bool, s: WalkState, tok: Token)
    requires Step(t, lmax, stripTags, s, tok).Continue?
    ensures var s' := Step(t, lmax, stripTags, s, tok).next;
            var opens := tok.Element? && tok.depth > 0 && !tok.isEmpty && IgnoreContentOfTag(tok.name);
            var closes := tok.EndElement? && tok.depth > 0 && IgnoreContentOfTag(tok.name);
            && s'.dontCount == s.dontCount + (if opens then 1 else 0) - (if closes then 1 else 0)
            && s'.stripContent == s.stripContent
                 + (if opens && StripTag(stripTags, tok.name) then 1 else 0)
                 - (if closes && StripTag(stripTags, tok.name) then 1 else 0)
  {
  }

  /** The value of a text or other node is appended to the markup exactly
      when no stripped ignore-content element is open: text inside a
      script that is kept is copied even though it is not counted. */
  lemma ValuesCopiedUnlessStripping(t: TfTruncate, lmax: int, stripTags: bool, s: WalkState, tok: Token)
    requires tok.Text? || tok.Other?
    requires Step(t, lmax, stripTags, s, tok).Continue?
    ensures Step(t, lmax, stripTags, s, tok).next.out ==
              if s.stripContent == 0 then s.out + tok.value else s.out
  {
  }

  // ---------------------------------------------------------------------
  // The whole loop

  /** Running the loop over `xs + [x]` is running it over `xs`, then one
      more step if it has not returned yet. */
  lemma {:induction false} WalkSnoc(t: TfTruncate, lmax: int, stripTags: bool, xs: seq<Token>, x: Token, s: WalkState)
    ensures Walk(t, lmax, stripTags, xs + [x], s) ==
              match Walk(t, lmax, stripTags, xs, s)
              case Cut(r) => Cut(r)
              case Exhausted(s') =>
                match Step(t, lmax, stripTags, s', x)
                case Stop(r) => Cut(r)
                case Continue(s'') => Exhausted(s'')
    decreases |xs|
  {
    if |xs| == 0 {
      assert xs + [x] == [x];
      assert [x][1..] == [];
    } else {
      assert (xs + [x])[0] == xs[0];
      assert (xs + [x])[1..] == xs[1..] + [x];
      match Step(t, lmax, stripTags, s, xs[0])
      case Stop(r) =>
      case Continue(s') => WalkSnoc(t, lmax, stripTags, xs[1..], x, s');
    }
  }

  /** The loop returns at its first cut: once a prefix has returned, every
      longer input returns the same thing. */
  lemma {:induction false} WalkCutIsFinal(t: TfTruncate, lmax: int, stripTags: bool, xs: seq<Token>, ys: seq<Token>, s: WalkState)
    requires Walk(t, lmax, stripTags, xs, s).Cut?
    ensures Walk(t, lmax, stripTags, xs + ys, s) == Walk(t, lmax, stripTags, xs, s)
    decreases |xs|
  {
    assert (xs + ys)[0] == xs[0];
    assert (xs + ys)[1..] == xs[1..] + ys;
    match Step(t, lmax, stripTags, s, xs[0])
    case Stop(r) =>
    case Continue(s') => WalkCutIsFinal(t, lmax, stripTags, xs[1..], ys, s');
  }

  /** Wherever a node stops the loop, the loop returns that node's result. */
  lemma StopIsTheResult(t: TfTruncate, lmax: int, stripTags: bool, tokens: seq<Token>, s: WalkState, i: int)
    requires 0 <= i < |tokens| && StopsAt(t, lmax, stripTags, tokens, s, i)
    ensures Walk(t, lmax, stripTags, tokens, s) ==
              Cut(Step(t, lmax, stripTags, Walk(t, lmax, stripTags, tokens[..i], s).final, tokens[i]).result)
  {
    WalkSnoc(t, lmax, stripTags, tokens[..i], tokens[i], s);
    assert tokens[..i] + [tokens[i]] == tokens[..i + 1];
    WalkCutIsFinal(t, lmax, stripTags, tokens[..i + 1], tokens[i + 1..], s);
    assert tokens[..i + 1] + tokens[i + 1..] == tokens;
  }

  /** The loop returns exactly when some node `i` stops it after the nodes
      before it have all been consumed, and the result is that node's. */
  lemma WalkCutPoint(t: TfTruncate, lmax: int, stripTags: bool, tokens: seq<Token>, s: WalkState)
    ensures Walk(t, lmax, stripTags, tokens, s).Cut? <==>
              exists i :: 0 <= i < |tokens| && StopsAt(t, lmax, stripTags, tokens, s, i)
    ensures forall i :: 0 <= i < |tokens| && StopsAt(t, lmax, stripTags, tokens, s, i) ==>
              Walk(t, lmax, stripTags, tokens, s).result ==
                Step(t, lmax, stripTags, Walk(t, lmax, stripTags, tokens[..i], s).final, tokens[i]).result
  {
    forall i | 0 <= i < |tokens| && StopsAt(t, lmax, stripTags, tokens, s, i)
      ensures Walk(t, lmax, stripTags, tokens, s) ==
                Cut(Step(t, lmax, stripTags, Walk(t, lmax, stripTags, tokens[..i], s).final, tokens[i]).result)
    {
      StopIsTheResult(t, lmax, stripTags, tokens, s, i);
    }
    if Walk(t, lmax, stripTags, tokens, s).Cut? {
      var i := FirstStop(t, lmax, stripTags, tokens, s);
    }
  }

  /** Node `i` stops the loop: the nodes before it were consumed without a
      return, and the step on node `i` returns. */
  predicate StopsAt(t: TfTruncate, lmax: int, stripTags: bool, tokens: seq<Token>, s: WalkState, i: int)
    requires 0 <= i < |tokens|
  {
    && Walk(t, lmax, stripTags, tokens[..i], s).Exhausted?
    && Step(t, lmax, stripTags, Walk(t, lmax, stripTags, tokens[..i], s).final, tokens[i]).Stop?
  }

  /** The index of the node at which the loop returns. */
  function FirstStop(t: TfTruncate, lmax: int, stripTags: bool, tokens: seq<Token>, s: WalkState): (i: nat)
    requires Walk(t, lmax, stripTags, tokens, s).Cut?
    ensures i < |tokens| && StopsAt(t, lmax, stripTags, tokens, s, i)
    decreases |tokens|
  {
    match Step(t, lmax, stripTags, s, tokens[0])
    case Stop(_) =>
      assert tokens[..0] == [];
      0
    case Continue(s') =>
      var j := FirstStop(t, lmax, stripTags, tokens[1..], s');
      assert tokens[1..][..j] == tokens[1..j + 1];
      assert tokens[..j + 1][0] == tokens[0] && tokens[..j + 1][1..] == tokens[1..j + 1];
      j + 1
  }

  /** While the loop runs, the count is either still 0 or within the
      budget: it passes the budget only at the node where the loop returns. */
  lemma {:induction false} WalkCountWithinBudget(t: TfTruncate, lmax: int, stripTags: bool, tokens: seq<Token>, s: WalkState)
    requires 0 <= s.count && (s.count == 0 || s.count <= Budget(t, lmax))
    requires Walk(t, lmax, stripTags, tokens, s).Exhausted?
    ensures var f := Walk(t, lmax, stripTags, tokens, s).final;
            && s.count <= f.count
            && (f.count == 0 || f.count <= Budget(t, lmax))
    decreases |tokens|
  {
    if |tokens| > 0 {
      var s' := Step(t, lmax, stripTags, s, tokens[0]).next;
      StepCounting(t, lmax, stripTags, s, tokens[0]);
      StepStopsOnlyOverBudget(t, lmax, stripTags, s, tokens[0]);
      WalkCountWithinBudget(t, lmax, stripTags, tokens[1..], s');
    }
  }
}
