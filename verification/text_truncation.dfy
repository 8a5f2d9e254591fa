/** `truncateText` (src/Tf/String/TfTruncate.php lines 69-104): cut a plain
    text at a word boundary so that it fits a length, and mark the cut. */
module TextTruncation {
  import opened TextUtil
  import opened WordRegex
  import opened Instance

  /** Lines 77-86: the markup pre-pass, then every white-space run collapsed. */
  function Unhtmlize(t: TfTruncate, text: string): string {
    CollapseSpaces(t.stripMarkup(text))
  }

  /** The text the limit is measured against (lines 77-87). */
  function Prepared(t: TfTruncate, text: string, unhtmlize: bool): string {
    Trim(if unhtmlize then Unhtmlize(t, text) else text)
  }

  /** The effective budget `l`: the limit less the marker's length (lines 88, 116). */
  function Budget(t: TfTruncate, lmax: int): int {
    lmax - |t.cplt|
  }

  /** Lines 88-103, applied to the prepared text `p`, with the effective
      budget `l = lmax - |cplt|`. */
  function CutPrepared(cplt: string, p: string, lmax: int): string {
    var l := lmax - |cplt|;
    if l >= 0 && |p| > lmax then CutWord(p[..l + 1]) + cplt else p
  }

  /** A text longer than `lmax` is cut to a prefix of its first `l + 1`
      characters and marked, so the result is at most one character over
      the limit; any other text, and every text when the marker alone is
      longer than the limit, is returned as is. */
  lemma CutPreparedBounds(cplt: string, p: string, lmax: int)
    ensures var r := CutPrepared(cplt, p, lmax);
            && (lmax - |cplt| < 0 || |p| <= lmax ==> r == p)
            && (lmax - |cplt| >= 0 && |p| > lmax ==>
                  && |cplt| <= |r| <= lmax + 1
                  && r[|r| - |cplt|..] == cplt
                  && r[..|r| - |cplt|] <= p[..lmax - |cplt| + 1])
  {
    var l := lmax - |cplt|;
    if l >= 0 && |p| > lmax {
      var w := CutWord(p[..l + 1]);
      CutWordIsPrefix(p[..l + 1]);
      assert (w + cplt)[..|w|] == w;
    }
  }

  /** `truncateText(text, lmax, unhtmlize)`. */
  function TruncateText(t: TfTruncate, text: string, lmax: int, unhtmlize: bool): string {
    CutPrepared(t.cplt, Prepared(t, text, unhtmlize), lmax)
  }

  /** A text whose prepared form fits the limit, or any text when the
      marker is longer than the limit, comes back prepared but uncut. */
  lemma TruncateTextUncut(t: TfTruncate, text: string, lmax: int, unhtmlize: bool)
    requires |Prepared(t, text, unhtmlize)| <= lmax || |t.cplt| > lmax
    ensures TruncateText(t, text, lmax, unhtmlize) == Prepared(t, text, unhtmlize)
  {
  }

  /** When `sub` ends in white space after a non-space character with no
      line feed before it, lines 92-95 keep the text before that white space. */
  lemma CutBeforeTrailingSpace(sub: string, k: int)
    requires 0 < k < |sub|
    requires !IsSpace(sub[k - 1]) && '\n' !in sub[..k]
    requires AllSpace(sub[k..])
    ensures CutWord(sub) == sub[..k]
  {
    assert sub == sub[..k] + sub[k..];
    assert IsTailMatch(sub, sub[..k], sub[k..]);
    MatchTailSpec(sub);
  }

  /** Lookahead on white space (lines 93-95): the cut falls at the budget
      `l`, and the white space `p[k..l]` before it is dropped too, line
      feeds included. Only the kept text `p[..k]` must be free of line
      feeds, since the group `(.*\S)` of line 92 spans just that. The kept
      text is non-empty, ends in a non-space character, and the result fits
      the limit. */
  lemma LookaheadOnSpace(cplt: string, p: string, lmax: int, k: int)
    requires 0 <= lmax - |cplt| && lmax < |p|
    requires IsSpace(p[lmax - |cplt|])
    requires 0 < k <= lmax - |cplt|
    requires '\n' !in p[..k]
    requires !IsSpace(p[k - 1])
    requires AllSpace(p[k..lmax - |cplt|])
    ensures CutPrepared(cplt, p, lmax) == p[..k] + cplt
    ensures |CutPrepared(cplt, p, lmax)| <= lmax
  {
    var l := lmax - |cplt|;
    var sub := p[..l + 1];
    SpaceRunThroughLookahead(p, k, l);
    CutBeforeTrailingSpace(sub, k);
    assert sub[..k] == p[..k];
  }

  lemma SpaceRunThroughLookahead(p: string, k: int, l: int)
    requires 0 < k <= l < |p|
    requires AllSpace(p[k..l]) && IsSpace(p[l]) && !IsSpace(p[k - 1]) && '\n' !in p[..k]
    ensures var sub := p[..l + 1];
            AllSpace(sub[k..]) && !IsSpace(sub[k - 1]) && '\n' !in sub[..k]
  {
    var sub := p[..l + 1];
    forall i | 0 <= i < |sub[k..]| ensures IsSpace(sub[k..][i]) {
      assert sub[k..][i] == p[k + i];
      if i < l - k {
        assert p[k + i] == p[k..l][i];
      }
    }
    assert sub[..k] == p[..k];
  }

  /** Lookahead inside a word, with white space earlier in the slice
      (lines 96-98): the partial word `p[j..l+1]` and the white-space run
      `p[i..j]` before it are dropped. The kept text is empty only when the
      text starts with white space, and otherwise ends in a non-space
      character followed by white space in the text. The result is shorter
      than the limit. */
  lemma PartialWordDropped(cplt: string, p: string, lmax: int, i: int, j: int)
    requires 0 <= lmax - |cplt| && lmax < |p|
    requires !IsSpace(p[lmax - |cplt|])
    requires '\n' !in p[..lmax - |cplt|]
    requires 0 <= i < j <= lmax - |cplt|
    requires AllSpace(p[i..j])
    requires NoSpace(p[j..lmax - |cplt| + 1])
    requires i == 0 || !IsSpace(p[i - 1])
    ensures CutPrepared(cplt, p, lmax) == p[..i] + cplt
    ensures |CutPrepared(cplt, p, lmax)| < lmax
    ensures !IsSpace(p[0]) ==> i > 0
  {
    var l := lmax - |cplt|;
    PartialWordSlices(p, l, i, j);
    CutDropsLastWord(p[..l + 1], i, j);
  }

  /** When `sub` ends in a word preceded by the white space `sub[i..j]`,
      with no line feed anywhere, lines 96-98 drop both. */
  lemma CutDropsLastWord(sub: string, i: int, j: int)
    requires 0 <= i < j < |sub|
    requires '\n' !in sub && !IsSpace(sub[|sub| - 1])
    requires AllSpace(sub[i..j]) && NoSpace(sub[j..])
    requires i == 0 || !IsSpace(sub[i - 1])
    ensures CutWord(sub) == sub[..i]
  {
    assert sub[..|sub|] == sub && sub[|sub|..] == [];
    assert IsTailMatch(sub, sub[..|sub|], sub[|sub|..]);
    assert sub[j..|sub|] == sub[j..];
    DropLastWordMatched(sub, i, j, |sub|);
  }

  lemma PartialWordSlices(p: string, l: int, i: int, j: int)
    requires 0 <= i < j <= l < |p|
    requires !IsSpace(p[l]) && '\n' !in p[..l]
    requires AllSpace(p[i..j]) && NoSpace(p[j..l + 1]) && (i == 0 || !IsSpace(p[i - 1]))
    ensures var sub := p[..l + 1];
            && '\n' !in sub && !IsSpace(sub[|sub| - 1])
            && AllSpace(sub[i..j]) && NoSpace(sub[j..])
            && (i == 0 || !IsSpace(sub[i - 1]))
            && sub[..i] == p[..i]
            && (i == 0 ==> IsSpace(p[0]))
  {
    var sub := p[..l + 1];
    assert sub == p[..l] + [p[l]];
    assert sub[i..j] == p[i..j];
    assert sub[j..] == p[j..l + 1];
    if i == 0 {
      assert p[0] == p[i..j][0];
    }
  }

  /** A single word (no white space in the first `l + 1` characters,
      lines 96-98): nothing is dropped, so all `l + 1` characters are kept
      and the result is exactly one character over the limit. */
  lemma SingleWordKept(cplt: string, p: string, lmax: int)
    requires 0 <= lmax - |cplt| && lmax < |p|
    requires NoSpace(p[..lmax - |cplt| + 1])
    ensures CutPrepared(cplt, p, lmax) == p[..lmax - |cplt| + 1] + cplt
    ensures |CutPrepared(cplt, p, lmax)| == lmax + 1
  {
    var l := lmax - |cplt|;
    var sub := p[..l + 1];
    assert sub[..l + 1] == sub && sub[l + 1..] == [];
    assert IsTailMatch(sub, sub[..l + 1], sub[l + 1..]);
    forall i, j, e ensures !IsWordTailMatch(sub, i, j, e) {
      if 0 <= i < j <= |sub| {
        assert sub[i..j][0] == sub[i];
      }
    }
    DropLastWordUnmatched(sub);
  }

  /** When the pattern at line 92 finds no match (the slice is all white
      space, or a line feed comes before its last non-space character), the
      `l + 1` characters are kept as they are, one character over the limit. */
  lemma UncutWhenPatternFails(cplt: string, p: string, lmax: int)
    requires 0 <= lmax - |cplt| && lmax < |p|
    requires NoTailMatch(p[..lmax - |cplt| + 1])
    ensures CutPrepared(cplt, p, lmax) == p[..lmax - |cplt| + 1] + cplt
    ensures |CutPrepared(cplt, p, lmax)| == lmax + 1
  {
    MatchTailSpec(p[..lmax - |cplt| + 1]);
  }

  /** A line feed before the last word of the slice defeats the pattern at
      line 92, whatever the lookahead character is. */
  lemma LineFeedDefeatsCut(cplt: string, p: string, lmax: int, n: int, m: int)
    requires 0 <= lmax - |cplt| && lmax < |p|
    requires 0 <= n < m <= lmax - |cplt|
    requires p[n] == '\n' && !IsSpace(p[m])
    ensures CutPrepared(cplt, p, lmax) == p[..lmax - |cplt| + 1] + cplt
  {
    var sub := p[..lmax - |cplt| + 1];
    forall k | 0 <= k <= |sub| ensures !IsTailMatch(sub, sub[..k], sub[k..]) {
      if k <= m {
        assert sub[k..][m - k] == sub[m];
      } else {
        assert sub[..k][n] == '\n';
      }
    }
    UncutWhenPatternFails(cplt, p, lmax);
  }

  /** A concrete instance: with the default marker, "ab\ncd efgh" cut to 8
      keeps "ab\ncd " whole, 9 characters in all. */
  lemma LineFeedExample(t: TfTruncate, text: string)
    requires t.cplt == "..." && text == "ab\ncd efgh"
    ensures TruncateText(t, text, 8, false) == "ab\ncd ..."
  {
    assert Prepared(t, text, false) == text by { TrimSpec(text); }
    LineFeedDefeatsCut("...", text, 8, 2, 4);
    assert text[..6] + "..." == "ab\ncd ...";
  }

  /** A concrete instance: NEL (U+0085) is white space to the `u` patterns,
      so with the default marker "abc\u{85}defgh" cut to 6 is cut before it. */
  lemma NextLineExample(t: TfTruncate, text: string)
    requires t.cplt == "..." && text == "abc\U{85}defgh"
    ensures TruncateText(t, text, 6, false) == "abc..."
  {
    assert Prepared(t, text, false) == text by { TrimSpec(text); }
    assert text[..3] == "abc" && text[3..3] == [];
    LookaheadOnSpace("...", text, 6, 3);
  }

  /** A concrete instance: a line feed inside the white space before the
      budget does not stop the cut, so "abc\n defgh" cut to 7 keeps "abc". */
  lemma LineFeedInRunExample(t: TfTruncate, text: string)
    requires t.cplt == "..." && text == "abc\n defgh"
    ensures TruncateText(t, text, 7, false) == "abc..."
  {
    assert Prepared(t, text, false) == text by { TrimSpec(text); }
    assert text[..3] == "abc" && text[3..4] == "\n";
    LookaheadOnSpace("...", text, 7, 3);
  }

  /** A concrete instance: a single 35-character word cut to 10 keeps its
      first 8 characters before the marker, 11 characters in all. */
  lemma SingleWordExample(t: TfTruncate, text: string)
    requires t.cplt == "..." && text == "onewordthatiswaytoolongforthebudget"
    ensures TruncateText(t, text, 10, false) == "onewordt..."
  {
    assert Prepared(t, text, false) == text by { TrimSpec(text); }
    OneWordPrefix(text);
    SingleWordKept("...", text, 10);
  }

  lemma OneWordPrefix(text: string)
    requires text == "onewordthatiswaytoolongforthebudget"
    ensures |text| == 35 && NoSpace(text[..8]) && text[..8] + "..." == "onewordt..."
  {
    var w := text[..8];
    assert w == "onewordt";
    forall i | 0 <= i < |w| ensures !IsSpace(w[i]) {
      assert 'a' <= w[i] <= 'z';
    }
  }

  /** Truncating an already truncated text again (without the markup
      pre-pass) changes nothing, provided the marker is non-empty and
      neither starts nor ends with a character `trim` would remove. */
  lemma TruncateTextIdempotent(t: TfTruncate, text: string, lmax: int, unhtmlize: bool)
    requires |t.cplt| > 0 && !IsTrimChar(t.cplt[0]) && !IsTrimChar(t.cplt[|t.cplt| - 1])
    ensures var r := TruncateText(t, text, lmax, unhtmlize);
            TruncateText(t, r, lmax, false) == r
  {
    var p := Prepared(t, text, unhtmlize);
    var r := TruncateText(t, text, lmax, unhtmlize);
    TrimSpec(if unhtmlize then Unhtmlize(t, text) else text);
    CutPreparedIdempotent(t.cplt, p, lmax);
    TrimSpec(r);
  }

  lemma CutPreparedIdempotent(cplt: string, p: string, lmax: int)
    requires |cplt| > 0 && !IsTrimChar(cplt[0]) && !IsTrimChar(cplt[|cplt| - 1])
    requires IsTrimmed(p)
    ensures IsTrimmed(CutPrepared(cplt, p, lmax))
    ensures CutPrepared(cplt, CutPrepared(cplt, p, lmax), lmax) == CutPrepared(cplt, p, lmax)
  {
    var l := lmax - |cplt|;
    var r := CutPrepared(cplt, p, lmax);
    if l >= 0 && |p| > lmax {
      var sub := p[..l + 1];
      var w := CutWord(sub);
      assert r == w + cplt;
      if |w| > 0 {
        assert r[0] == w[0] == sub[0] == p[0];
      } else {
        assert r == cplt;
      }
      assert r[|r| - 1] == cplt[|cplt| - 1];
      if |r| > lmax {
        assert |w| == l + 1;
        assert w == sub;
        assert r[..l + 1] == sub;
      }
    }
  }
}
