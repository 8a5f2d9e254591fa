/** The two regular expressions `truncateText` uses to find a word boundary
    (src/Tf/String/TfTruncate.php lines 92 and 98), each given by a
    declarative description of what the pattern matches and a function that
    computes the match, proved to agree. Both patterns carry the `u`
    modifier, so `\s` is `IsSpace`; neither carries `s`, so `.` never
    matches a line feed; neither carries `D`, so `$` also matches just
    before a final line feed. */
module WordRegex {
  import opened Options
  import opened TextUtil

  /** Index just past the last non-space character of `s` (0 when there is none). */
  function EndOfLastNonSpace(s: string): (k: nat)
    ensures k <= |s|
  {
    if |s| == 0 then 0
    else if !IsSpace(s[|s| - 1]) then |s|
    else EndOfLastNonSpace(s[..|s| - 1])
  }

  /** Everything after the last non-space character is white space. */
  lemma {:induction false} EndOfLastNonSpaceSpec(s: string)
    ensures var k := EndOfLastNonSpace(s);
            && (k > 0 ==> !IsSpace(s[k - 1]))
            && AllSpace(s[k..])
    decreases |s|
  {
    if |s| > 0 && IsSpace(s[|s| - 1]) {
      var init := s[..|s| - 1];
      EndOfLastNonSpaceSpec(init);
      var k := EndOfLastNonSpace(init);
      assert s[k..] == init[k..] + [s[|s| - 1]];
    }
  }

  /** Start of the trailing run of white space of `s` (|s| when `s` ends in a non-space). */
  function StartOfSpaceRun(s: string): (i: nat)
    ensures i <= |s|
  {
    if |s| > 0 && IsSpace(s[|s| - 1]) then StartOfSpaceRun(s[..|s| - 1]) else |s|
  }

  lemma {:induction false} StartOfSpaceRunSpec(s: string)
    ensures var i := StartOfSpaceRun(s);
            && AllSpace(s[i..])
            && (i > 0 ==> !IsSpace(s[i - 1]))
    decreases |s|
  {
    if |s| > 0 && IsSpace(s[|s| - 1]) {
      var init := s[..|s| - 1];
      StartOfSpaceRunSpec(init);
      var i := StartOfSpaceRun(init);
      assert s[i..] == init[i..] + [s[|s| - 1]];
    }
  }

  /** Start of the trailing run of non-space characters of `s`. */
  function StartOfWord(s: string): (j: nat)
    ensures j <= |s|
  {
    if |s| > 0 && !IsSpace(s[|s| - 1]) then StartOfWord(s[..|s| - 1]) else |s|
  }

  lemma {:induction false} StartOfWordSpec(s: string)
    ensures var j := StartOfWord(s);
            && NoSpace(s[j..])
            && (j > 0 ==> IsSpace(s[j - 1]))
    decreases |s|
  {
    if |s| > 0 && !IsSpace(s[|s| - 1]) {
      var init := s[..|s| - 1];
      StartOfWordSpec(init);
      var j := StartOfWord(init);
      assert s[j..] == init[j..] + [s[|s| - 1]];
    }
  }

  /** A run boundary is unique: any `i` whose suffix is all white space and
      whose predecessor is not, is the start of the trailing space run. */
  lemma {:induction false} SpaceRunStartUnique(s: string, i: int)
    requires 0 <= i <= |s| && AllSpace(s[i..]) && (i > 0 ==> !IsSpace(s[i - 1]))
    ensures i == StartOfSpaceRun(s)
    decreases |s|
  {
    if i < |s| {
      var init := s[..|s| - 1];
      assert s[i..][|s| - 1 - i] == s[|s| - 1];
      assert init[i..] == s[i..][..|s| - 1 - i];
      if i > 0 {
        assert init[i - 1] == s[i - 1];
      }
      SpaceRunStartUnique(init, i);
    } else if i > 0 {
      assert !IsSpace(s[|s| - 1]);
    }
  }

  lemma {:induction false} WordStartUnique(s: string, j: int)
    requires 0 <= j <= |s| && NoSpace(s[j..]) && (j > 0 ==> IsSpace(s[j - 1]))
    ensures j == StartOfWord(s)
    decreases |s|
  {
    if j < |s| {
      var init := s[..|s| - 1];
      assert s[j..][|s| - 1 - j] == s[|s| - 1];
      assert init[j..] == s[j..][..|s| - 1 - j];
      if j > 0 {
        assert init[j - 1] == s[j - 1];
      }
      WordStartUnique(init, j);
    } else if j > 0 {
      assert IsSpace(s[|s| - 1]);
    }
  }

  // ---------------------------------------------------------------------
  // Line 92: preg_match('#^(.*\S)(\s*)$#ui', sub, match)

  /** `g1`, `g2` are the two groups of a match of `^(.*\S)(\s*)$` covering
      `s`: `.*\S` is a non-empty run of characters other than line feed that
      ends in a non-space, and `\s*` is white space up to the end. (`$` may
      also stand before a final line feed, but the greedy `\s*` has already
      taken it, so the reported groups always span the whole subject.) */
  predicate IsTailMatch(s: string, g1: string, g2: string) {
    && s == g1 + g2
    && |g1| > 0
    && !IsSpace(g1[|g1| - 1])
    && '\n' !in g1
    && AllSpace(g2)
  }

  lemma {:induction false} EndOfLastNonSpaceUnique(s: string, k: int)
    requires 0 < k <= |s| && !IsSpace(s[k - 1]) && AllSpace(s[k..])
    ensures k == EndOfLastNonSpace(s)
    decreases |s|
  {
    if k < |s| {
      var init := s[..|s| - 1];
      assert s[k..][|s| - 1 - k] == s[|s| - 1];
      assert init[k..] == s[k..][..|s| - 1 - k];
      assert init[k - 1] == s[k - 1];
      EndOfLastNonSpaceUnique(init, k);
    }
  }

  /** Splitting `s` into a `.*\S` part and a white-space part can happen at
      one place only: just after the last non-space character. */
  lemma TailSplitUnique(s: string, k: int)
    requires 0 <= k <= |s| && IsTailMatch(s, s[..k], s[k..])
    ensures k == EndOfLastNonSpace(s)
  {
    assert s[..k][k - 1] == s[k - 1];
    EndOfLastNonSpaceUnique(s, k);
  }

  /** The pattern `^(.*\S)(\s*)$` matches nowhere in `s`. */
  predicate NoTailMatch(s: string) {
    forall k :: 0 <= k <= |s| ==> !IsTailMatch(s, s[..k], s[k..])
  }

  /** The outcome of `preg_match` at line 92: the two groups, or None when
      the pattern does not match. */
  function MatchTail(s: string): Option<(string, string)> {
    var k := EndOfLastNonSpace(s);
    if 0 < k && '\n' !in s[..k] then Some((s[..k], s[k..])) else None
  }

  /** The groups `MatchTail` reports form a match, the only one there is;
      and it reports none exactly when no split of `s` is a match, that is,
      when `s` has no non-space character or has a line feed before its
      last one. */
  lemma MatchTailSpec(s: string)
    ensures var m := MatchTail(s);
            && (m.Some? ==> IsTailMatch(s, m.value.0, m.value.1))
            && (m.Some? ==> forall k :: 0 <= k <= |s| && IsTailMatch(s, s[..k], s[k..]) ==> k == |m.value.0|)
            && (m.None? <==> NoTailMatch(s))
  {
    var k := EndOfLastNonSpace(s);
    EndOfLastNonSpaceSpec(s);
    assert s == s[..k] + s[k..];
    if k > 0 {
      assert s[..k][k - 1] == s[k - 1];
    }
    forall k' | 0 <= k' <= |s| && IsTailMatch(s, s[..k'], s[k'..]) ensures k' == k {
      TailSplitUnique(s, k');
    }
  }

  // ---------------------------------------------------------------------
  // Line 98: preg_replace('/\s+\S+$/ui', '', sub)

  /** The only position at which `\S+$` can end: the end of `s`, or just
      before a final line feed (a match cannot end at the very end then,
      since a line feed is white space). */
  function DollarEnd(s: string): (e: nat)
    ensures e <= |s|
  {
    if |s| > 0 && s[|s| - 1] == '\n' then |s| - 1 else |s|
  }

  /** `s[i..e]` is a match of `\s+\S+$`: white space `s[i..j]`, then a word
      `s[j..e]`, then the end of the subject or a final line feed. */
  predicate IsWordTailMatch(s: string, i: int, j: int, e: int) {
    && 0 <= i < j < e <= |s|
    && (e == |s| || (e == |s| - 1 && s[e] == '\n'))
    && AllSpace(s[i..j])
    && NoSpace(s[j..e])
  }

  /** The result of the `preg_replace` at line 98: the leftmost match (the
      whole last white-space run and the word after it) is removed; after
      it nothing is left to match, so there is no second replacement. */
  function DropLastWord(s: string): (r: string)
    ensures |r| <= |s|
  {
    var e := DollarEnd(s);
    var j := StartOfWord(s[..e]);
    var i := StartOfSpaceRun(s[..j]);
    if i < j < e then s[..i] + s[e..] else s
  }

  /** When `\s+\S+$` matches, the text from the leftmost match onward (up
      to the optional final line feed) is what is removed. */
  lemma DropLastWordMatched(s: string, i: int, j: int, e: int)
    requires IsWordTailMatch(s, i, j, e)
    requires i == 0 || !IsSpace(s[i - 1])
    ensures DropLastWord(s) == s[..i] + s[e..]
  {
    assert e == DollarEnd(s) by {
      assert s[j..e][e - 1 - j] == s[e - 1];
    }
    assert s[..e][j..] == s[j..e];
    assert s[i..j][j - 1 - i] == s[j - 1];
    WordStartUnique(s[..e], j);
    assert s[..j][i..] == s[i..j];
    SpaceRunStartUnique(s[..j], i);
  }

  /** When `\s+\S+$` does not match anywhere, the subject is unchanged. */
  lemma DropLastWordUnmatched(s: string)
    requires forall i, j, e :: !IsWordTailMatch(s, i, j, e)
    ensures DropLastWord(s) == s
  {
    var e := DollarEnd(s);
    var j := StartOfWord(s[..e]);
    var i := StartOfSpaceRun(s[..j]);
    if i < j < e {
      StartOfWordSpec(s[..e]);
      StartOfSpaceRunSpec(s[..j]);
      assert s[..e][j..] == s[j..e];
      assert s[..j][i..] == s[i..j];
      assert IsWordTailMatch(s, i, j, e);
    }
  }

  // ---------------------------------------------------------------------
  // Lines 92-99 together

  /** What lines 92-99 make of `sub`, the first `l + 1` characters: when
      the last character is white space, the text before the trailing white
      space; otherwise the text without its last word and the white space
      before it, if white space precedes it; and `sub` itself whenever the
      pattern at line 92 does not match. */
  function CutWord(sub: string): string {
    match MatchTail(sub)
    case None => sub
    case Some((g1, g2)) => if |g2| > 0 then g1 else DropLastWord(sub)
  }

  /** Lines 92-99 only ever keep a prefix of `sub`. */
  lemma CutWordIsPrefix(sub: string)
    ensures CutWord(sub) <= sub
  {
    MatchTailSpec(sub);
    match MatchTail(sub)
    case None =>
    case Some((g1, g2)) =>
      if |g2| == 0 {
        assert sub == g1 && !IsSpace(sub[|sub| - 1]);
        assert DollarEnd(sub) == |sub|;
        assert sub[..|sub|] == sub;
      }
  }
}
