/**
 Cutting one keyword argument out of Python source text by counting brackets: `extract` of
 graphiti/verify-small-model-default.py.
 */
module ExpressionScan {
  import opened Text

  const ANCHOR := "small_model="

  // ----- Python's strip

  predicate IsPySpace(c: char) {
    || '\t' <= c <= '\r' || '\U{1C}' <= c <= '\U{20}' || c == '\U{85}' || c == '\U{A0}' || c == '\U{1680}'
    || '\U{2000}' <= c <= '\U{200A}' || c == '\U{2028}' || c == '\U{2029}' || c == '\U{202F}'
    || c == '\U{205F}' || c == '\U{3000}'
  }

  function Strip(s: string): string {
    if s != "" && IsPySpace(s[0]) then Strip(s[1..])
    else if s != "" && IsPySpace(s[|s| - 1]) then Strip(s[..|s| - 1])
    else s
  }

  predicate Stripped(s: string) {
    s != "" && !IsPySpace(s[0]) && !IsPySpace(s[|s| - 1])
  }

  // ----- where the argument ends

  predicate IsOpen(c: char) {
    c == '(' || c == '[' || c == '{'
  }

  predicate IsClose(c: char) {
    c == ')' || c == ']' || c == '}'
  }

  /** The characters the scan looks at. */
  lemma BracketsAre(c: char)
    ensures IsOpen(c) <==> c in "([{"
    ensures IsClose(c) <==> c in ")]}"
  {
    assert "([{"[0] == '(' && "([{"[1] == '[' && "([{"[2] == '{';
    assert ")]}"[0] == ')' && ")]}"[1] == ']' && ")]}"[2] == '}';
  }

  /** Opening brackets less closing ones; the kinds of bracket are not told apart. */
  function Depth(s: string): int {
    if s == "" then 0
    else
      var c := s[|s| - 1];
      Depth(s[..|s| - 1]) + if IsOpen(c) then 1 else if IsClose(c) then -1 else 0
  }

  /** At `k`, a comma or a closing bracket stands outside all brackets opened in `s`. */
  predicate EndsAt(s: string, k: nat)
    requires k < |s|
  {
    Depth(s[..k]) == 0 && (s[k] == ',' || IsClose(s[k]))
  }

  /** The argument that starts at `start` is `src[start..stop]`: it reaches to its first end or to the end of file. */
  ghost predicate IsStop(src: string, start: nat, stop: nat) {
    && start <= stop <= |src|
    && (forall k | 0 <= k < stop - start :: !EndsAt(src[start..], k))
    && (stop < |src| ==> EndsAt(src[start..], stop - start))
  }

  lemma StopIsUnique(src: string, start: nat, a: nat, b: nat)
    requires IsStop(src, start, a) && IsStop(src, start, b)
    ensures a == b
  {
  }

  /** All matches of the anchor, left to right, not overlapping. */
  function Matches(src: string, from: nat): (hits: seq<nat>)
    decreases |src| - from
  {
    var i := IndexOf(src, ANCHOR, from);
    if i == -1 then [] else [i] + Matches(src, i + |ANCHOR|)
  }

  datatype Extraction = WrongAnchorCount(found: nat) | EmptyExpression | Expression(text: string)

  function Extracted(src: string, start: nat, stop: nat): Extraction
    requires start <= stop <= |src|
  {
    var text := Strip(src[start..stop]);
    if text == "" then EmptyExpression else Expression(text)
  }

  method Extract(src: string) returns (r: Extraction, stop: nat)
    ensures |Matches(src, 0)| != 1 ==> r == WrongAnchorCount(|Matches(src, 0)|)
    ensures |Matches(src, 0)| == 1 ==>
              var start := Matches(src, 0)[0] + |ANCHOR|;
              IsStop(src, start, stop) && r == Extracted(src, start, stop)
  {
    stop := 0;
    var hits := Matches(src, 0);
    if |hits| != 1 {
      return WrongAnchorCount(|hits|), stop;
    }
    var start := hits[0] + |ANCHOR|;
    var out;
    stop, out := ScanArgument(src, start);
    var expr := Strip(out);
    return if expr == "" then EmptyExpression else Expression(expr), stop;
  }

  method ScanArgument(src: string, start: nat) returns (i: nat, out: string)
    requires start <= |src|
    ensures IsStop(src, start, i) && out == src[start..i]
  {
    ghost var tail := src[start..];
    var depth := 0;
    i, out := start, "";
    while i < |src|
      invariant start <= i <= |src| && out == tail[..i - start]
      invariant depth == Depth(out) >= 0
      invariant forall k | 0 <= k < i - start :: !EndsAt(tail, k)
      decreases |src| - i
    {
      var c := src[i];
      assert c == tail[i - start];
      if IsOpen(c) {
        depth := depth + 1;
      } else if IsClose(c) {
        if depth == 0 {
          break;
        }
        depth := depth - 1;
      } else if c == ',' && depth == 0 {
        break;
      }
      DepthSnoc(out, c);
      assert tail[..i + 1 - start] == out + [c];
      out := out + [c];
      i := i + 1;
    }
  }

  lemma DepthSnoc(s: string, c: char)
    ensures Depth(s + [c]) == Depth(s) + if IsOpen(c) then 1 else if IsClose(c) then -1 else 0
  {
    assert (s + [c])[..|s|] == s;
  }

  // ----- exactness

  /** The scan runs through all of `e`. */
  ghost predicate NoEnd(e: string) {
    forall k | 0 <= k < |e| :: !EndsAt(e, k)
  }

  /** A whole argument: its brackets balance, and no comma stands outside them. */
  ghost predicate Enclosed(e: string) {
    Depth(e) == 0 && NoEnd(e)
  }

  /** What may follow an argument. */
  predicate EndsArgument(rest: string) {
    rest == "" || rest[0] == ',' || IsClose(rest[0])
  }

  lemma EndsInPrefix(e: string, rest: string, k: nat)
    requires k < |e|
    ensures EndsAt(e + rest, k) <==> EndsAt(e, k)
  {
    assert (e + rest)[..k] == e[..k];
  }

  /** The scan stops right behind `e` exactly when `e` is a whole argument and an end follows. */
  lemma StopsBehindIff(before: string, e: string, rest: string)
    requires rest != ""
    ensures IsStop(before + e + rest, |before|, |before| + |e|) <==> Enclosed(e) && EndsArgument(rest)
  {
    var src := before + e + rest;
    assert src[|before|..] == e + rest;
    forall k | 0 <= k < |e| ensures EndsAt(e + rest, k) <==> EndsAt(e, k) {
      EndsInPrefix(e, rest, k);
    }
    assert (e + rest)[..|e|] == e;
  }

  /**
   `extract` is exact: around one anchor, a whole argument followed by a comma, a closing bracket or
   the end of file is returned, stripped.
   */
  lemma ExtractIsExact(src: string, before: string, e: string, rest: string, start: nat, stop: nat)
    requires src == before + ANCHOR + e + rest && start == |before| + |ANCHOR|
    requires Enclosed(e) && EndsArgument(rest)
    requires IsStop(src, start, stop)
    ensures src[start..stop] == e
  {
    var head := before + ANCHOR;
    assert src == head + e + rest;
    if rest != "" {
      StopsBehindIff(head, e, rest);
    } else {
      assert src[start..] == e;
    }
    StopIsUnique(src, start, stop, start + |e|);
  }

  /** Two anchors cannot overlap: its first letter does not come again in it. */
  lemma AnchorsDoNotOverlap(src: string, i: nat, j: nat)
    requires i < j && MatchesAt(src, ANCHOR, i) && MatchesAt(src, ANCHOR, j)
    ensures i + |ANCHOR| <= j
  {
    assert src[j..j + |ANCHOR|][0] == src[j] == ANCHOR[0];
    forall k | 0 <= k < |ANCHOR| ensures src[i + k] == ANCHOR[k] {
      assert src[i..i + |ANCHOR|][k] == src[i + k];
    }
  }

  /** A text with one anchor has its one match where the anchor is. */
  lemma SingleMatch(src: string, at: nat)
    requires MatchesAt(src, ANCHOR, at) && |Matches(src, 0)| == 1
    ensures Matches(src, 0) == [at]
  {
    var i := IndexOf(src, ANCHOR, 0);
    assert i <= at;
    if i < at {
      AnchorsDoNotOverlap(src, i, at);
    }
  }

  lemma AnchorAt(src: string, before: string, tail: string)
    requires src == before + ANCHOR + tail
    ensures MatchesAt(src, ANCHOR, |before|)
  {
    assert src[|before|..|before| + |ANCHOR|] == ANCHOR;
  }

  lemma StrippedIsExtracted(src: string, start: nat, stop: nat, e: string)
    requires start <= stop <= |src| && src[start..stop] == e && Stripped(e)
    ensures Extracted(src, start, stop) == Expression(e)
  {
    assert Strip(e) == e;
  }

  /** The argument printed behind the one anchor starts at the match and ends where `e` ends. */
  lemma ArgumentFound(src: string, before: string, e: string, rest: string, start: nat, stop: nat)
    requires src == before + ANCHOR + e + rest && |Matches(src, 0)| == 1
    requires Enclosed(e) && EndsArgument(rest)
    requires start == Matches(src, 0)[0] + |ANCHOR| && IsStop(src, start, stop)
    ensures src[start..stop] == e
  {
    assert src == before + ANCHOR + (e + rest);
    AnchorAt(src, before, e + rest);
    SingleMatch(src, |before|);
    ExtractIsExact(src, before, e, rest, start, stop);
  }

  /** End to end: the argument printed behind the one anchor is what `Extract` is bound to return. */
  lemma ExtractReturnsArgument(src: string, before: string, e: string, rest: string, r: Extraction, stop: nat)
    requires src == before + ANCHOR + e + rest && |Matches(src, 0)| == 1
    requires Enclosed(e) && EndsArgument(rest) && Stripped(e)
    requires var start := Matches(src, 0)[0] + |ANCHOR|; IsStop(src, start, stop) && r == Extracted(src, start, stop)
    ensures r == Expression(e)
  {
    var start := Matches(src, 0)[0] + |ANCHOR|;
    ArgumentFound(src, before, e, rest, start, stop);
    StrippedIsExtracted(src, start, stop, e);
  }

  // ----- building whole arguments

  /** The bracket depth after `s`, starting at depth `d`; none if the scan would stop inside. */
  function Run(s: string, d: nat): Option<nat> {
    if s == "" then Some(d)
    else if IsOpen(s[0]) then Run(s[1..], d + 1)
    else if IsClose(s[0]) then if d == 0 then None else Run(s[1..], d - 1)
    else if s[0] == ',' && d == 0 then None
    else Run(s[1..], d)
  }

  lemma {:induction false} RunCompose(a: string, b: string, d: nat)
    ensures Run(a + b, d) == if Run(a, d).Some? then Run(b, Run(a, d).value) else None
    decreases |a|
  {
    if a == "" {
      assert a + b == b;
    } else {
      assert (a + b)[1..] == a[1..] + b;
      if IsOpen(a[0]) {
        RunCompose(a[1..], b, d + 1);
      } else if IsClose(a[0]) {
        if d > 0 {
          RunCompose(a[1..], b, d - 1);
        }
      } else {
        RunCompose(a[1..], b, d);
      }
    }
  }

  /** Inside more brackets nothing stops the scan that did not stop it outside. */
  lemma {:induction false} RunDeeper(s: string, d: nat, more: nat)
    requires Run(s, d).Some?
    ensures Run(s, d + more) == Some(Run(s, d).value + more)
    decreases |s|
  {
    if s == "" {
    } else {
      if IsOpen(s[0]) {
        RunDeeper(s[1..], d + 1, more);
      } else if IsClose(s[0]) {
        RunDeeper(s[1..], d - 1, more);
      } else {
        RunDeeper(s[1..], d, more);
      }
    }
  }

  lemma NoEndSnoc(front: string, c: char)
    ensures NoEnd(front + [c]) <==> NoEnd(front) && !(Depth(front) == 0 && (c == ',' || IsClose(c)))
  {
    var s := front + [c];
    assert s[..|front|] == front;
    assert EndsAt(s, |front|) <==> Depth(front) == 0 && (c == ',' || IsClose(c));
    forall k | 0 <= k < |front| ensures EndsAt(s, k) <==> EndsAt(front, k) {
      EndsInPrefix(front, [c], k);
    }
  }

  lemma RunOne(c: char, d: nat)
    ensures Run([c], d).Some? <==> !(d == 0 && (c == ',' || IsClose(c)))
    ensures Run([c], d).Some? ==> Run([c], d).value == d + if IsOpen(c) then 1 else if IsClose(c) then -1 else 0
  {
    assert [c][1..] == "";
  }

  lemma {:induction false} RunIsDepth(s: string)
    ensures Run(s, 0).Some? <==> NoEnd(s)
    ensures Run(s, 0).Some? ==> Depth(s) == Run(s, 0).value
  {
    if s == "" {
    } else {
      var front, c := s[..|s| - 1], s[|s| - 1];
      RunIsDepth(front);
      RunCompose(front, [c], 0);
      NoEndSnoc(front, c);
      DepthSnoc(front, c);
      assert s == front + [c];
      if Run(front, 0).Some? {
        RunOne(c, Run(front, 0).value);
      }
    }
  }

  lemma EnclosedIffRun(e: string)
    ensures Enclosed(e) <==> Run(e, 0) == Some(0)
  {
    RunIsDepth(e);
  }
}
