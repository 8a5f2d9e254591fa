/** The PHP and PCRE string primitives the truncator relies on, over strings
    as sequences of code points (multibyte encodings are not modelled: every
    length is the number of code points, as `mb_strlen` counts them). */
module TextUtil {

  /** `\s` in a PCRE pattern compiled WITHOUT the `u` modifier, with PHP's
      default (C locale) character tables: tab, LF, VT, FF, CR and space. */
  predicate IsAsciiSpace(c: char) {
    c == ' ' || c == '\t' || c == '\n' || c == '\U{B}' || c == '\U{C}' || c == '\r'
  }

  /** `\s` in a PCRE pattern compiled WITH the `u` modifier. PHP turns on
      Unicode properties for such patterns, so the class is every code point
      of the Unicode category Z, the horizontal white space `\h` (which adds
      tab and U+180E) and the vertical white space `\v` (which adds LF, VT,
      FF, CR and NEL, U+0085). */
  predicate IsSpace(c: char) {
    || IsAsciiSpace(c)
    || c == '\U{85}' || c == '\U{180E}'
    || c == '\U{A0}' || c == '\U{1680}'
    || ('\U{2000}' <= c <= '\U{200A}')
    || c == '\U{2028}' || c == '\U{2029}' || c == '\U{202F}' || c == '\U{205F}'
    || c == '\U{3000}'
  }

  /** The characters PHP's `trim` removes when given no character list.
      Note that this is not `\s`: NUL is trimmed, form feed is not. */
  predicate IsTrimChar(c: char) {
    c == ' ' || c == '\t' || c == '\n' || c == '\r' || c == '\0' || c == '\U{B}'
  }

  predicate AllSpace(s: string) {
    forall i :: 0 <= i < |s| ==> IsSpace(s[i])
  }

  predicate NoSpace(s: string) {
    forall i :: 0 <= i < |s| ==> !IsSpace(s[i])
  }

  /** PHP `ltrim`. */
  function TrimStart(s: string): string {
    if |s| > 0 && IsTrimChar(s[0]) then TrimStart(s[1..]) else s
  }

  /** PHP `rtrim`. */
  function TrimEnd(s: string): string {
    if |s| > 0 && IsTrimChar(s[|s| - 1]) then TrimEnd(s[..|s| - 1]) else s
  }

  /** PHP `trim`. */
  function Trim(s: string): string {
    TrimEnd(TrimStart(s))
  }

  predicate IsTrimmed(s: string) {
    |s| == 0 || (!IsTrimChar(s[0]) && !IsTrimChar(s[|s| - 1]))
  }

  /** `ltrim` keeps the longest suffix that does not start with a trim character. */
  lemma {:induction false} TrimStartSpec(s: string)
    ensures var r := TrimStart(s);
      && |r| <= |s| && r == s[|s| - |r|..]
      && (|r| > 0 ==> !IsTrimChar(r[0]))
      && (forall i :: 0 <= i < |s| - |r| ==> IsTrimChar(s[i]))
    decreases |s|
  {
    if |s| > 0 && IsTrimChar(s[0]) {
      TrimStartSpec(s[1..]);
    }
  }

  /** `rtrim` keeps the longest prefix that does not end with a trim character. */
  lemma {:induction false} TrimEndSpec(s: string)
    ensures var r := TrimEnd(s);
      && |r| <= |s| && r == s[..|r|]
      && (|r| > 0 ==> !IsTrimChar(r[|r| - 1]))
      && (forall i :: |r| <= i < |s| ==> IsTrimChar(s[i]))
    decreases |s|
  {
    if |s| > 0 && IsTrimChar(s[|s| - 1]) {
      TrimEndSpec(s[..|s| - 1]);
    }
  }

  /** `trim` leaves neither end on a trim character, keeps a contiguous
      slice of its input, and leaves a trimmed string as it is. */
  lemma TrimSpec(s: string)
    ensures IsTrimmed(Trim(s))
    ensures |Trim(s)| <= |s|
    ensures IsTrimmed(s) ==> Trim(s) == s
    ensures var a := |s| - |TrimStart(s)|; 0 <= a && a + |Trim(s)| <= |s| && Trim(s) == s[a..a + |Trim(s)|]
  {
    TrimStartSpec(s);
    TrimEndSpec(TrimStart(s));
    TrimIsSlice(s);
  }

  lemma TrimIsSlice(s: string)
    ensures var a := |s| - |TrimStart(s)|; 0 <= a && a + |Trim(s)| <= |s| && Trim(s) == s[a..a + |Trim(s)|]
  {
    var m := TrimStart(s);
    var r := TrimEnd(m);
    var a := |s| - |m|;
    TrimStartSpec(s);
    TrimEndSpec(m);
    SliceOfSuffix(s, a, |r|);
  }

  lemma SliceOfSuffix(s: string, a: int, n: int)
    requires 0 <= a <= |s| && 0 <= n <= |s| - a
    ensures s[a..][..n] == s[a..a + n]
  {
  }

  /** `trim` removes nothing but trim characters: every other character of
      the input is still there. */
  lemma TrimKeepsContent(s: string)
    ensures forall c :: c in s && !IsTrimChar(c) ==> c in Trim(s)
  {
    var m := TrimStart(s);
    TrimStartSpec(s);
    TrimEndSpec(m);
    var r := TrimEnd(m);
    var a := |s| - |m|;
    forall c | c in s && !IsTrimChar(c) ensures c in r {
      var i :| 0 <= i < |s| && s[i] == c;
      assert m[i - a] == c;
      assert r[i - a] == c;
    }
  }

  /** The suffix of `s` left after its leading ASCII white space. */
  function SkipAsciiSpaces(s: string): (r: string)
    ensures |r| <= |s|
  {
    if |s| > 0 && IsAsciiSpace(s[0]) then SkipAsciiSpaces(s[1..]) else s
  }

  /** Skipping removes exactly the leading run of white space. */
  lemma {:induction false} SkipAsciiSpacesSpec(s: string)
    ensures var r := SkipAsciiSpaces(s);
            && r == s[|s| - |r|..]
            && (|r| > 0 ==> !IsAsciiSpace(r[0]))
            && (forall i :: 0 <= i < |s| - |r| ==> IsAsciiSpace(s[i]))
    decreases |s|
  {
    if |s| > 0 && IsAsciiSpace(s[0]) {
      SkipAsciiSpacesSpec(s[1..]);
    }
  }

  /** `preg_replace('#\s+#', ' ', s)`: every maximal run of (ASCII) white
      space becomes a single space. */
  function CollapseSpaces(s: string): (r: string)
    ensures |r| <= |s|
    decreases |s|
  {
    if |s| == 0 then ""
    else if IsAsciiSpace(s[0]) then " " + CollapseSpaces(SkipAsciiSpaces(s))
    else [s[0]] + CollapseSpaces(s[1..])
  }

  /** The non-white-space content of `s`, in order. */
  function DropAsciiSpaces(s: string): string {
    if |s| == 0 then ""
    else (if IsAsciiSpace(s[0]) then "" else [s[0]]) + DropAsciiSpaces(s[1..])
  }

  lemma {:induction false} DropAsciiSpacesOfSkipped(s: string)
    ensures DropAsciiSpaces(SkipAsciiSpaces(s)) == DropAsciiSpaces(s)
    decreases |s|
  {
    if |s| > 0 && IsAsciiSpace(s[0]) {
      DropAsciiSpacesOfSkipped(s[1..]);
    }
  }

  /** Collapsing yields something exactly when the input is non-empty, and
      starts with white space exactly when the input does. */
  lemma CollapseSpacesHead(s: string)
    ensures var r := CollapseSpaces(s);
      && (|r| > 0 <==> |s| > 0)
      && (|r| > 0 ==> (IsAsciiSpace(r[0]) <==> IsAsciiSpace(s[0])))
  {
  }

  /** The only white space in `s` is the plain space, and never two
      white-space characters side by side. */
  predicate IsCollapsed(s: string) {
    && (forall i :: 0 <= i < |s| && IsAsciiSpace(s[i]) ==> s[i] == ' ')
    && (forall i :: 0 < i < |s| && IsAsciiSpace(s[i]) ==> !IsAsciiSpace(s[i - 1]))
  }

  /** Collapsing leaves a collapsed string. */
  lemma {:induction false} CollapseSpacesSingleSpaces(s: string)
    ensures IsCollapsed(CollapseSpaces(s))
    decreases |s|
  {
    if |s| > 0 {
      var r := CollapseSpaces(s);
      var tail := if IsAsciiSpace(s[0]) then SkipAsciiSpaces(s) else s[1..];
      SkipAsciiSpacesSpec(s);
      CollapseSpacesSingleSpaces(tail);
      CollapseSpacesHead(tail);
      var rt := CollapseSpaces(tail);
      assert r == [r[0]] + rt;
      forall i | 0 < i < |r| && IsAsciiSpace(r[i])
        ensures !IsAsciiSpace(r[i - 1])
      {
        assert r[i] == rt[i - 1];
        if i == 1 {
          assert IsAsciiSpace(rt[0]);
        } else {
          assert r[i - 1] == rt[i - 2];
        }
      }
      forall i | 0 <= i < |r| && IsAsciiSpace(r[i]) ensures r[i] == ' ' {
        if i > 0 {
          assert r[i] == rt[i - 1];
        }
      }
    }
  }

  lemma CollapsedTail(s: string)
    requires |s| > 0 && IsCollapsed(s)
    ensures IsCollapsed(s[1..])
    ensures IsAsciiSpace(s[0]) ==> s[0] == ' ' && (|s| == 1 || !IsAsciiSpace(s[1]))
  {
    var tail := s[1..];
    forall i | 0 < i < |tail| && IsAsciiSpace(tail[i]) ensures !IsAsciiSpace(tail[i - 1]) {
      assert tail[i] == s[i + 1] && tail[i - 1] == s[i];
    }
    forall i | 0 <= i < |tail| && IsAsciiSpace(tail[i]) ensures tail[i] == ' ' {
      assert tail[i] == s[i + 1];
    }
  }

  /** A collapsed string is left as it is. */
  lemma {:induction false} CollapsedUnchanged(s: string)
    requires IsCollapsed(s)
    ensures CollapseSpaces(s) == s
    decreases |s|
  {
    if |s| > 0 {
      var tail := s[1..];
      CollapsedTail(s);
      CollapsedUnchanged(tail);
      if IsAsciiSpace(s[0]) {
        assert SkipAsciiSpaces(s) == SkipAsciiSpaces(tail) == tail;
        assert s == [' '] + tail;
      } else {
        assert s == [s[0]] + tail;
      }
    }
  }

  /** Collapsing twice is collapsing once. */
  lemma CollapseSpacesIdempotent(s: string)
    ensures CollapseSpaces(CollapseSpaces(s)) == CollapseSpaces(s)
  {
    CollapseSpacesSingleSpaces(s);
    CollapsedUnchanged(CollapseSpaces(s));
  }

  /** Collapsing keeps every non-space character, in order. */
  lemma {:induction false} CollapseSpacesKeepsContent(s: string)
    ensures DropAsciiSpaces(CollapseSpaces(s)) == DropAsciiSpaces(s)
    decreases |s|
  {
    if |s| == 0 {
    } else if IsAsciiSpace(s[0]) {
      var rest := SkipAsciiSpaces(s);
      CollapseSpacesKeepsContent(rest);
      DropAsciiSpacesOfSkipped(s);
      var r := CollapseSpaces(s);
      assert r[1..] == CollapseSpaces(rest);
      assert DropAsciiSpaces(r) == DropAsciiSpaces(r[1..]);
    } else {
      CollapseSpacesKeepsContent(s[1..]);
      var r := CollapseSpaces(s);
      assert r[1..] == CollapseSpaces(s[1..]);
    }
  }

  /** Skipping the leading white space of `x + y` skips into `y` only when
      `x` is all white space. */
  lemma {:induction false} SkipAsciiSpacesAppend(x: string, y: string)
    requires exists k :: 0 <= k < |x| && !IsAsciiSpace(x[k])
    ensures SkipAsciiSpaces(x + y) == SkipAsciiSpaces(x) + y
    decreases |x|
  {
    if IsAsciiSpace(x[0]) {
      var k :| 0 <= k < |x| && !IsAsciiSpace(x[k]);
      assert k > 0 && x[1..][k - 1] == x[k];
      assert (x + y)[1..] == x[1..] + y;
      SkipAsciiSpacesAppend(x[1..], y);
    }
  }

  /** A non-empty run of white space in front of a text that does not start
      with white space is skipped entirely. */
  lemma {:induction false} SkipWhiteRun(w: string, b: string)
    requires forall k :: 0 <= k < |w| ==> IsAsciiSpace(w[k])
    requires |b| == 0 || !IsAsciiSpace(b[0])
    ensures SkipAsciiSpaces(w + b) == b
    decreases |w|
  {
    if |w| > 0 {
      assert (w + b)[0] == w[0] && (w + b)[1..] == w[1..] + b;
      SkipWhiteRun(w[1..], b);
    } else {
      assert w + b == b;
    }
  }

  /** A maximal white-space run becomes exactly one space: collapsing
      `a + w + b`, where the run `w` is neither preceded nor followed by
      white space, is collapsing `a`, one space, and collapsing `b`. */
  lemma CollapseSpacesRun(a: string, w: string, b: string)
    requires |w| > 0 && forall k :: 0 <= k < |w| ==> IsAsciiSpace(w[k])
    requires |a| == 0 || !IsAsciiSpace(a[|a| - 1])
    requires |b| == 0 || !IsAsciiSpace(b[0])
    ensures CollapseSpaces(a + w + b) == CollapseSpaces(a) + " " + CollapseSpaces(b)
  {
    CollapseRunFirst(w, b);
    SplitAfterNonSpace(a, w, b);
    ConcatAssoc(CollapseSpaces(a), " ", CollapseSpaces(b));
  }

  lemma SplitAfterNonSpace(a: string, w: string, b: string)
    requires |a| == 0 || !IsAsciiSpace(a[|a| - 1])
    ensures CollapseSpaces(a + w + b) == CollapseSpaces(a) + CollapseSpaces(w + b)
  {
    assert a + w + b == a + (w + b);
    CollapseAppend(a, w + b);
  }

  /** A white-space run at the start becomes one space. */
  lemma CollapseRunFirst(w: string, b: string)
    requires |w| > 0 && forall k :: 0 <= k < |w| ==> IsAsciiSpace(w[k])
    requires |b| == 0 || !IsAsciiSpace(b[0])
    ensures CollapseSpaces(w + b) == " " + CollapseSpaces(b)
  {
    assert (w + b)[0] == w[0];
    SkipWhiteRun(w, b);
  }

  lemma ConcatAssoc(x: string, y: string, z: string)
    ensures x + (y + z) == x + y + z
  {
  }

  /** No white-space run crosses a point just after a non-space character,
      so collapsing splits there. */
  lemma {:induction false} CollapseAppend(a: string, y: string)
    requires |a| == 0 || !IsAsciiSpace(a[|a| - 1])
    ensures CollapseSpaces(a + y) == CollapseSpaces(a) + CollapseSpaces(y)
    decreases |a|
  {
    if |a| == 0 {
      assert a + y == y;
    } else if IsAsciiSpace(a[0]) {
      var rest := SkipAsciiSpaces(a);
      CollapseLeadingRun(a, y);
      CollapseAppend(rest, y);
      ConcatAssoc(" ", CollapseSpaces(rest), CollapseSpaces(y));
    } else {
      var tail := a[1..];
      CollapseCons(a, y);
      if |tail| > 0 {
        assert tail[|tail| - 1] == a[|a| - 1];
      }
      CollapseAppend(tail, y);
      ConcatAssoc([a[0]], CollapseSpaces(tail), CollapseSpaces(y));
    }
  }

  /** Collapsing a text that starts with a non-space character keeps it. */
  lemma CollapseCons(a: string, y: string)
    requires |a| > 0 && !IsAsciiSpace(a[0])
    ensures CollapseSpaces(a + y) == [a[0]] + CollapseSpaces(a[1..] + y)
    ensures CollapseSpaces(a) == [a[0]] + CollapseSpaces(a[1..])
  {
    assert (a + y)[0] == a[0] && (a + y)[1..] == a[1..] + y;
  }

  /** A leading white-space run of `a`, which ends in a non-space
      character, becomes one space, in `a` and in any extension of `a`. */
  lemma CollapseLeadingRun(a: string, y: string)
    requires |a| > 0 && IsAsciiSpace(a[0]) && !IsAsciiSpace(a[|a| - 1])
    ensures var rest := SkipAsciiSpaces(a);
            && |rest| > 0 && |rest| < |a| && !IsAsciiSpace(rest[|rest| - 1])
            && CollapseSpaces(a + y) == " " + CollapseSpaces(rest + y)
            && CollapseSpaces(a) == " " + CollapseSpaces(rest)
  {
    var rest := SkipAsciiSpaces(a);
    SkipAsciiSpacesSpec(a);
    SkipAsciiSpacesAppend(a, y);
    assert (a + y)[0] == a[0];
    assert rest[|rest| - 1] == a[|a| - 1];
  }

  /** With two spaces between `a` and `b`, collapsing leaves one. */
  lemma CollapseExample(s: string)
    requires s == "a \t b"
    ensures CollapseSpaces(s) == "a b"
  {
    assert s == "a" + " \t " + "b";
    CollapseSpacesRun("a", " \t ", "b");
    CollapsedUnchanged("a");
    CollapsedUnchanged("b");
  }

  function LowerChar(c: char): char {
    if 'A' <= c <= 'Z' then (c as int - 'A' as int + 'a' as int) as char else c
  }

  /** PHP `strtolower`, which (since PHP 8.2) maps the ASCII letters only. */
  function Lower(s: string): string {
    seq(|s|, i requires 0 <= i < |s| => LowerChar(s[i]))
  }

  predicate EqualsIgnoringCase(a: string, b: string) {
    Lower(a) == Lower(b)
  }

  /** PHP `implode(glue, pieces)`. */
  function Implode(glue: string, pieces: seq<string>): string
    decreases |pieces|
  {
    if |pieces| == 0 then ""
    else if |pieces| == 1 then pieces[0]
    else pieces[0] + glue + Implode(glue, pieces[1..])
  }
}
