/** The three pieces of JavaScript string handling the resume builder relies
    on: the `\s` character class of regular expressions, `String.prototype.trim`,
    and `replace(/\s+/g, "_")`, which turns every run of white space into a
    single underscore. */
module Text {

  /** JavaScript `\s`: the WhiteSpace code points of ECMA-262 section 12.2
      (TAB, VT, FF, ZWNBSP and every code point of Unicode category Zs) and
      the LineTerminator code points of section 12.3 (LF, CR, LS, PS).
      `String.prototype.trim` strips exactly the same set. */
  predicate IsWs(c: char) {
    // WhiteSpace, the explicitly named code points
    || c == '\t' || c == '\U{000B}' || c == '\U{000C}' || c == '\U{FEFF}'
    // WhiteSpace, Unicode category Zs
    || c == ' ' || c == '\U{00A0}' || c == '\U{1680}'
    || ('\U{2000}' <= c <= '\U{200A}')
    || c == '\U{202F}' || c == '\U{205F}' || c == '\U{3000}'
    // LineTerminator
    || c == '\n' || c == '\r' || c == '\U{2028}' || c == '\U{2029}'
  }

  /** The same class written out as the table of its 25 code points. */
  const WsCodePoints: set<char> := {
    '\t', '\U{000B}', '\U{000C}', '\U{FEFF}',
    ' ', '\U{00A0}', '\U{1680}',
    '\U{2000}', '\U{2001}', '\U{2002}', '\U{2003}', '\U{2004}', '\U{2005}',
    '\U{2006}', '\U{2007}', '\U{2008}', '\U{2009}', '\U{200A}',
    '\U{202F}', '\U{205F}', '\U{3000}',
    '\n', '\r', '\U{2028}', '\U{2029}'
  }

  /** `IsWs` holds of exactly the code points of the table, and of no
      other character: in particular not of the underscore. */
  lemma IsWsMatchesTable(c: char)
    ensures IsWs(c) <==> c in WsCodePoints
    ensures !IsWs(Underscore)
  {
  }

  predicate AllWs(s: string) {
    forall k :: 0 <= k < |s| ==> IsWs(s[k])
  }

  predicate NoWs(s: string) {
    forall k :: 0 <= k < |s| ==> !IsWs(s[k])
  }

  /** The character every white-space run is replaced by. */
  const Underscore: char := '_'

  /** The index just past the white-space run that starts at `i`: every
      character from `i` up to it is white space, and the character there,
      if any, is not. */
  function RunEnd(s: string, i: nat): (j: nat)
    requires i <= |s|
    ensures i <= j <= |s|
    ensures forall k :: i <= k < j ==> IsWs(s[k])
    ensures j == |s| || !IsWs(s[j])
    decreases |s| - i
  {
    if i < |s| && IsWs(s[i]) then RunEnd(s, i + 1) else i
  }

  /** The index where the white-space run that ends at `j` starts: every
      character from it up to `j` is white space, and the one before it, if
      any, is not. */
  function RunStart(s: string, j: nat): (i: nat)
    requires j <= |s|
    ensures i <= j
    ensures forall k :: i <= k < j ==> IsWs(s[k])
    ensures i == 0 || !IsWs(s[i - 1])
  {
    if j > 0 && IsWs(s[j - 1]) then RunStart(s, j - 1) else j
  }

  /** The run boundaries are the only indices with their description. */
  lemma RunEndUnique(s: string, i: nat, j: nat)
    requires i <= j <= |s|
    requires forall k :: i <= k < j ==> IsWs(s[k])
    requires j == |s| || !IsWs(s[j])
    ensures RunEnd(s, i) == j
  {
  }

  lemma RunStartUnique(s: string, i: nat, j: nat)
    requires i <= j <= |s|
    requires forall k :: i <= k < j ==> IsWs(s[k])
    requires i == 0 || !IsWs(s[i - 1])
    ensures RunStart(s, j) == i
  {
  }

  /** Drops the leading white space of `s`: what is left is a suffix of `s`
      that is empty or starts with a non-white-space character, and what is
      dropped is all white space. */
  function TrimStart(s: string): (r: string)
    ensures |r| <= |s| && r == s[|s| - |r|..]
    ensures forall k :: 0 <= k < |s| - |r| ==> IsWs(s[k])
    ensures r == [] || !IsWs(r[0])
    ensures |s| > 0 && IsWs(s[0]) ==> |r| < |s|
  {
    s[RunEnd(s, 0)..]
  }

  /** `String.prototype.trim`: the middle of `s` once the white space at both
      ends is gone. Nothing but white space is dropped, and the result neither
      starts nor ends with white space; it is empty exactly when `s` is all
      white space. */
  function Trim(s: string): (r: string)
    ensures var a := RunEnd(s, 0);
      && a + |r| <= |s|
      && r == s[a..a + |r|]
      && (forall k :: 0 <= k < a ==> IsWs(s[k]))
      && (forall k :: a + |r| <= k < |s| ==> IsWs(s[k]))
    ensures r == [] || (!IsWs(r[0]) && !IsWs(r[|r| - 1]))
    ensures r == [] <==> AllWs(s)
  {
    var a := RunEnd(s, 0);
    if a == |s| then
      []
    else
      var b := RunStart(s, |s|);
      assert a < b;
      s[a..b]
  }

  /** Trimming is determined by the decomposition it promises: whenever `s`
      is white space, then a core that neither starts nor ends with white
      space, then white space, the trim of `s` is that core. */
  lemma TrimOfPadded(front: string, core: string, back: string)
    requires AllWs(front) && AllWs(back)
    requires core == [] || (!IsWs(core[0]) && !IsWs(core[|core| - 1]))
    ensures Trim(front + core + back) == core
  {
    var s := front + core + back;
    var a := |front|;
    var b := |front| + |core|;
    forall k | 0 <= k < a ensures IsWs(s[k]) {
      assert s[k] == front[k];
    }
    forall k | b <= k < |s| ensures IsWs(s[k]) {
      assert s[k] == back[k - b];
    }
    if core == [] {
      assert AllWs(s);
    } else {
      assert s[a] == core[0];
      assert s[b - 1] == core[|core| - 1];
      RunEndUnique(s, 0, a);
      RunStartUnique(s, b, |s|);
      assert s[a..b] == core;
    }
  }

  /** Trimming twice is trimming once. */
  lemma TrimIdempotent(s: string)
    ensures Trim(Trim(s)) == Trim(s)
  {
    var t := Trim(s);
    assert [] + t + [] == t;
    TrimOfPadded([], t, []);
  }

  /** White space in front of a visible character is exactly what trimming
      the start removes. */
  lemma TrimStartOfPadded(front: string, rest: string)
    requires AllWs(front)
    requires rest != [] && !IsWs(rest[0])
    ensures TrimStart(front + rest) == rest
  {
    var s := front + rest;
    forall k | 0 <= k < |front| ensures IsWs(s[k]) {
      assert s[k] == front[k];
    }
    assert s[|front|] == rest[0];
    RunEndUnique(s, 0, |front|);
    assert s[|front|..] == rest;
  }

  /** `s.replace(/\s+/g, "_")`: every maximal run of white space becomes one
      underscore, every other character is kept. */
  function CollapseWs(s: string): (r: string)
    ensures NoWs(r)
    ensures |r| <= |s|
    decreases |s|
  {
    if |s| == 0 then []
    else if IsWs(s[0]) then [Underscore] + CollapseWs(TrimStart(s))
    else [s[0]] + CollapseWs(s[1..])
  }

  /** A string without white space passes through unchanged. */
  lemma {:induction false} CollapseNoWs(s: string)
    requires NoWs(s)
    ensures CollapseWs(s) == s
    decreases |s|
  {
    if |s| > 0 {
      CollapseNoWs(s[1..]);
    }
  }

  /** A non-empty run of white space alone becomes a single underscore. */
  lemma CollapseRun(w: string)
    requires w != [] && AllWs(w)
    ensures CollapseWs(w) == [Underscore]
  {
    assert TrimStart(w) == [];
  }

  /** Collapsing distributes over a concatenation that does not glue two
      white-space runs together. With `CollapseNoWs` and `CollapseRun` this
      pins the function down on every input. */
  lemma {:induction false} CollapseAppend(x: string, y: string)
    requires x == [] || y == [] || !IsWs(x[|x| - 1]) || !IsWs(y[0])
    ensures CollapseWs(x + y) == CollapseWs(x) + CollapseWs(y)
    decreases |x|
  {
    if x == [] {
      assert x + y == y;
    } else if y == [] {
      assert x + y == x;
    } else if !IsWs(x[0]) {
      CollapseConsVisible(x, y);
      assert x[1..] == [] || x[1..][|x[1..]| - 1] == x[|x| - 1];
      CollapseAppend(x[1..], y);
    } else if TrimStart(x) == [] {
      CollapseRun(x);
      CollapseRunThenVisible(x, y);
    } else {
      var t := TrimStart(x);
      CollapseConsRun(x, y);
      assert t[|t| - 1] == x[|x| - 1];
      CollapseAppend(t, y);
    }
  }

  /** One step of collapsing `x + y` when `x` starts with a visible
      character. */
  lemma CollapseConsVisible(x: string, y: string)
    requires x != [] && !IsWs(x[0])
    ensures CollapseWs(x) == [x[0]] + CollapseWs(x[1..])
    ensures CollapseWs(x + y) == [x[0]] + CollapseWs(x[1..] + y)
  {
    assert (x + y)[0] == x[0];
    assert (x + y)[1..] == x[1..] + y;
  }

  /** One step of collapsing `x + y` when `x` starts with white space and
      holds a visible character further on. */
  lemma CollapseConsRun(x: string, y: string)
    requires x != [] && IsWs(x[0]) && TrimStart(x) != []
    ensures CollapseWs(x) == [Underscore] + CollapseWs(TrimStart(x))
    ensures CollapseWs(x + y) == [Underscore] + CollapseWs(TrimStart(x) + y)
  {
    assert (x + y)[0] == x[0];
    TrimStartAppend(x, y);
  }

  /** A white-space run followed by a visible character. */
  lemma CollapseRunThenVisible(x: string, y: string)
    requires x != [] && TrimStart(x) == []
    requires y != [] && !IsWs(y[0])
    ensures CollapseWs(x + y) == [Underscore] + CollapseWs(y)
  {
    assert AllWs(x);
    assert (x + y)[0] == x[0];
    TrimStartOfPadded(x, y);
  }

  /** When `x` holds a visible character, its leading white space is all
      that trimming `x + y` removes. */
  lemma TrimStartAppend(x: string, y: string)
    requires TrimStart(x) != []
    ensures TrimStart(x + y) == TrimStart(x) + y
  {
    var a := RunEnd(x, 0);
    var s := x + y;
    forall k | 0 <= k < a ensures IsWs(s[k]) {
      assert s[k] == x[k];
    }
    assert s[a] == x[a];
    RunEndUnique(s, 0, a);
    assert s[a..] == x[a..] + y;
  }

  /** Collapsing is idempotent. */
  lemma CollapseIdempotent(s: string)
    ensures CollapseWs(CollapseWs(s)) == CollapseWs(s)
  {
    CollapseNoWs(CollapseWs(s));
  }

  /** The characters a reader sees in a file name: neither white space nor
      the underscore that stands in for it. */
  function Visible(s: string): (r: string)
    ensures |r| <= |s|
  {
    if |s| == 0 then []
    else if IsWs(s[0]) || s[0] == Underscore then Visible(s[1..])
    else [s[0]] + Visible(s[1..])
  }

  /** Text with neither white space nor underscores is all visible. */
  lemma {:induction false} VisibleOfPlain(s: string)
    requires forall k :: 0 <= k < |s| ==> !IsWs(s[k]) && s[k] != Underscore
    ensures Visible(s) == s
    decreases |s|
  {
    if s != [] {
      VisibleOfPlain(s[1..]);
    }
  }

  /** The underscore that stands in for white space is not shown. */
  lemma VisibleSkipsUnderscore(s: string)
    ensures Visible([Underscore] + s) == Visible(s)
  {
    assert ([Underscore] + s)[0] == Underscore;
    assert ([Underscore] + s)[1..] == s;
  }

  lemma {:induction false} VisibleAppend(a: string, b: string)
    ensures Visible(a + b) == Visible(a) + Visible(b)
    decreases |a|
  {
    if a == [] {
      assert a + b == b;
    } else {
      assert (a + b)[1..] == a[1..] + b;
      VisibleAppend(a[1..], b);
    }
  }

  /** Dropping leading white space shows the same characters. */
  lemma {:induction false} VisibleDropWs(s: string, a: nat)
    requires a <= |s|
    requires forall k :: 0 <= k < a ==> IsWs(s[k])
    ensures Visible(s[a..]) == Visible(s)
    decreases a
  {
    if a > 0 {
      VisibleDropWs(s, a - 1);
      var t := s[a - 1..];
      assert t[0] == s[a - 1];
      assert t[1..] == s[a..];
    } else {
      assert s[0..] == s;
    }
  }

  lemma VisibleTrimStart(s: string)
    ensures Visible(TrimStart(s)) == Visible(s)
  {
    VisibleDropWs(s, |s| - |TrimStart(s)|);
  }

  /** Collapsing keeps every visible character, in order, and adds none. */
  lemma {:induction false} CollapseKeepsVisible(s: string)
    ensures Visible(CollapseWs(s)) == Visible(s)
    decreases |s|
  {
    if |s| > 0 {
      if IsWs(s[0]) {
        var t := TrimStart(s);
        CollapseKeepsVisible(t);
        VisibleTrimStart(s);
        assert ([Underscore] + CollapseWs(t))[1..] == CollapseWs(t);
      } else {
        CollapseKeepsVisible(s[1..]);
        assert ([s[0]] + CollapseWs(s[1..]))[1..] == CollapseWs(s[1..]);
      }
    }
  }

  /** The greedy `\s+` match at position `i`: the index just past the run
      of white space that starts there. */
  method SkipRun(s: string, i: nat) returns (j: nat)
    requires i <= |s|
    ensures j == RunEnd(s, i)
  {
    j := i;
    while j < |s| && IsWs(s[j])
      invariant i <= j <= |s|
      invariant forall k :: i <= k < j ==> IsWs(s[k])
    {
      j := j + 1;
    }
    RunEndUnique(s, i, j);
  }

  /** Collapsing from a white-space character: one underscore, then the
      collapse of what follows the run. */
  lemma CollapseAtRun(s: string, i: nat)
    requires i < |s| && IsWs(s[i])
    ensures CollapseWs(s[i..]) == [Underscore] + CollapseWs(s[RunEnd(s, i)..])
  {
    var t := s[i..];
    var j := RunEnd(s, i);
    assert t[0] == s[i];
    assert CollapseWs(t) == [Underscore] + CollapseWs(TrimStart(t));
    RunEndOfSuffix(s, i);
    assert TrimStart(t) == t[j - i..];
    assert t[j - i..] == s[j..];
  }

  /** The run starting at `i` ends at the same place in the suffix from `i`. */
  lemma RunEndOfSuffix(s: string, i: nat)
    requires i <= |s|
    ensures RunEnd(s[i..], 0) == RunEnd(s, i) - i
  {
    var t := s[i..];
    var j := RunEnd(s, i);
    forall k | 0 <= k < j - i ensures IsWs(t[k]) {
      assert t[k] == s[i + k];
    }
    assert j < |s| ==> t[j - i] == s[j];
    RunEndUnique(t, 0, j - i);
  }

  /** Collapsing from a visible character: that character, then the collapse
      of the rest. */
  lemma CollapseAtVisible(s: string, i: nat)
    requires i < |s| && !IsWs(s[i])
    ensures CollapseWs(s[i..]) == [s[i]] + CollapseWs(s[i + 1..])
  {
    var t := s[i..];
    assert t[0] == s[i];
    assert t[1..] == s[i + 1..];
  }

  /** The replacement as a regular-expression engine performs it: scan left
      to right, copy a visible character, and on a white-space character
      emit one underscore and skip the greedy `\s+` match. */
  method ReplaceWsRuns(s: string) returns (out: string)
    ensures out == CollapseWs(s)
  {
    out := [];
    var i := 0;
    while i < |s|
      invariant 0 <= i <= |s|
      invariant out + CollapseWs(s[i..]) == CollapseWs(s)
    {
      if IsWs(s[i]) {
        var j := SkipRun(s, i);
        ScanRun(s, i, out);
        out := out + [Underscore];
        i := j;
      } else {
        ScanVisible(s, i, out);
        out := out + [s[i]];
        i := i + 1;
      }
    }
    assert s[|s|..] == [];
  }

  /** The scan's step on a white-space run, stated on the output so far. */
  lemma ScanRun(s: string, i: nat, out: string)
    requires i < |s| && IsWs(s[i])
    ensures out + CollapseWs(s[i..]) == (out + [Underscore]) + CollapseWs(s[RunEnd(s, i)..])
  {
    CollapseAtRun(s, i);
    AppendStep(out, Underscore, CollapseWs(s[RunEnd(s, i)..]));
  }

  /** The scan's step on a visible character. */
  lemma ScanVisible(s: string, i: nat, out: string)
    requires i < |s| && !IsWs(s[i])
    ensures out + CollapseWs(s[i..]) == (out + [s[i]]) + CollapseWs(s[i + 1..])
  {
    CollapseAtVisible(s, i);
    AppendStep(out, s[i], CollapseWs(s[i + 1..]));
  }

  lemma AppendStep(a: string, x: char, b: string)
    ensures a + ([x] + b) == (a + [x]) + b
  {
  }
}
