/**
 * The JavaScript string and character-class primitives the mention code is
 * built from: the `[\w-]` and `\s` classes, `slice`, `indexOf`,
 * `lastIndexOf`, `replace` with a string pattern, and the counting of
 * maximal runs that `trim().split(/\s+/)` performs.
 */
module Chars {

  /** `[\w-]`: ASCII letters, digits, underscore and hyphen (no `u` flag, so `\w` is ASCII). */
  predicate IsNameChar(c: char)
  {
    ('A' <= c <= 'Z') || ('a' <= c <= 'z') || ('0' <= c <= '9') || c == '_' || c == '-'
  }

  /**
   * `\s`: the ECMAScript WhiteSpace and LineTerminator code points, which is
   * also the set `String.prototype.trim` removes.
   */
  predicate IsSpace(c: char)
  {
    c == '\t' || c == '\n' || c == '\U{000B}' || c == '\U{000C}' || c == '\r' || c == ' '
    || c == '\U{00A0}' || c == '\U{1680}' || ('\U{2000}' <= c <= '\U{200A}')
    || c == '\U{2028}' || c == '\U{2029}' || c == '\U{202F}' || c == '\U{205F}'
    || c == '\U{3000}' || c == '\U{FEFF}'
  }

  /** `t` occurs in `s` at index `i`. */
  predicate OccursAt(s: string, i: int, t: string)
  {
    0 <= i && i + |t| <= |s| && s[i..i + |t|] == t
  }

  /** `s.slice(from, to)` for non-negative arguments: both ends are clamped to `|s|`. */
  function Slice(s: string, from: nat, to: nat): (r: string)
    ensures from <= to <= |s| ==> r == s[from..to]
    ensures from <= |s| <= to ==> r == s[from..]
    ensures to <= from ==> r == []
    ensures |s| <= from ==> r == []
  {
    var a := if from < |s| then from else |s|;
    var b := if to < |s| then to else |s|;
    if a < b then s[a..b] else []
  }

  /** `s.slice(from)` for a non-negative argument. */
  function SliceFrom(s: string, from: nat): (r: string)
    ensures from <= |s| ==> r == s[from..]
    ensures |s| <= from ==> r == []
  {
    Slice(s, from, |s|)
  }

  /** The greatest index `j <= i` at which `t` occurs in `s`, or -1. */
  function LastIndexAtOrBelow(s: string, t: string, i: int): (r: int)
    requires i <= |s| - |t|
    ensures r == -1 || 0 <= r <= i
    decreases i + 1
  {
    if i < 0 then -1
    else if s[i..i + |t|] == t then i
    else LastIndexAtOrBelow(s, t, i - 1)
  }

  lemma {:induction false} LastIndexAtOrBelowSpec(s: string, t: string, i: int)
    requires i <= |s| - |t|
    ensures var r := LastIndexAtOrBelow(s, t, i);
            && (r >= 0 ==> OccursAt(s, r, t))
            && forall j :: r < j <= i ==> !OccursAt(s, j, t)
    decreases i + 1
  {
    if i >= 0 && s[i..i + |t|] != t {
      LastIndexAtOrBelowSpec(s, t, i - 1);
    }
  }

  /** `s.lastIndexOf(t)`: the last index at which `t` occurs, -1 when it does not occur. */
  function LastIndexOf(s: string, t: string): (r: int)
    ensures r == -1 || 0 <= r <= |s| - |t|
  {
    LastIndexAtOrBelow(s, t, |s| - |t|)
  }

  /** `lastIndexOf` finds the last occurrence, and -1 exactly when there is none. */
  lemma LastIndexOfSpec(s: string, t: string)
    ensures var r := LastIndexOf(s, t);
            && (r == -1 <==> forall j :: !OccursAt(s, j, t))
            && (r != -1 ==> OccursAt(s, r, t))
            && forall j :: r < j ==> !OccursAt(s, j, t)
  {
    LastIndexAtOrBelowSpec(s, t, |s| - |t|);
  }

  /** The least index `j >= i` at which `t` occurs in `s`, or -1. */
  function IndexFrom(s: string, t: string, i: nat): (r: int)
    ensures r == -1 || i <= r <= |s| - |t|
    decreases |s| + 1 - i
  {
    if i + |t| > |s| then -1
    else if s[i..i + |t|] == t then i
    else IndexFrom(s, t, i + 1)
  }

  lemma {:induction false} IndexFromSpec(s: string, t: string, i: nat)
    ensures var r := IndexFrom(s, t, i);
            && (r != -1 ==> OccursAt(s, r, t))
            && forall j :: i <= j && (r == -1 || j < r) ==> !OccursAt(s, j, t)
    decreases |s| + 1 - i
  {
    if i + |t| <= |s| && s[i..i + |t|] != t {
      IndexFromSpec(s, t, i + 1);
    }
  }

  /** `s.indexOf(t)`: the first index at which `t` occurs, -1 when it does not occur. */
  function IndexOf(s: string, t: string): (r: int)
    ensures r == -1 || 0 <= r <= |s| - |t|
  {
    IndexFrom(s, t, 0)
  }

  /** `indexOf` finds the first occurrence, and -1 exactly when there is none. */
  lemma IndexOfSpec(s: string, t: string)
    ensures var r := IndexOf(s, t);
            && (r == -1 <==> forall j :: !OccursAt(s, j, t))
            && (r != -1 ==> OccursAt(s, r, t) && forall j :: 0 <= j < r ==> !OccursAt(s, j, t))
  {
    IndexFromSpec(s, t, 0);
  }

  /** `s.replace(pat, "")` with a string pattern: the first occurrence of `pat` is removed. */
  function RemoveFirst(s: string, pat: string): string
  {
    var i := IndexOf(s, pat);
    if i < 0 then s else s[..i] + s[i + |pat|..]
  }

  /** Without an occurrence nothing is removed; otherwise exactly the first occurrence goes. */
  lemma RemoveFirstSpec(s: string, pat: string)
    ensures (forall j :: !OccursAt(s, j, pat)) ==> RemoveFirst(s, pat) == s
    ensures forall i :: OccursAt(s, i, pat) && (forall j :: 0 <= j < i ==> !OccursAt(s, j, pat))
                        ==> RemoveFirst(s, pat) == s[..i] + s[i + |pat|..]
  {
    IndexOfSpec(s, pat);
    forall i | OccursAt(s, i, pat) && (forall j :: 0 <= j < i ==> !OccursAt(s, j, pat))
      ensures RemoveFirst(s, pat) == s[..i] + s[i + |pat|..]
    {
      assert IndexOf(s, pat) == i;
    }
  }

  /** The end of the maximal run of `[\w-]` characters that starts at `i`. */
  function WordRunEnd(s: string, i: nat): (j: nat)
    requires i <= |s|
    ensures i <= j <= |s|
    ensures forall k :: i <= k < j ==> IsNameChar(s[k])
    ensures j == |s| || !IsNameChar(s[j])
    decreases |s| - i
  {
    if i < |s| && IsNameChar(s[i]) then WordRunEnd(s, i + 1) else i
  }

  /** The end of the maximal run of `\s` characters that starts at `i`. */
  function SpaceRunEnd(s: string, i: nat): (j: nat)
    requires i <= |s|
    ensures i <= j <= |s|
    ensures forall k :: i <= k < j ==> IsSpace(s[k])
    ensures j == |s| || !IsSpace(s[j])
    decreases |s| - i
  {
    if i < |s| && IsSpace(s[i]) then SpaceRunEnd(s, i + 1) else i
  }

  /**
   * The number of maximal runs in `x` of whitespace characters (`spaces`) or
   * of non-whitespace characters (`!spaces`); each run is counted at its
   * last character.
   */
  function RunCount(x: string, spaces: bool): nat
  {
    if |x| == 0 then 0
    else (if IsSpace(x[0]) == spaces && (|x| == 1 || IsSpace(x[1]) != spaces) then 1 else 0)
         + RunCount(x[1..], spaces)
  }

  /** Whitespace runs: the number of `\s+` gaps in a mention name. */
  function SpaceRuns(x: string): nat { RunCount(x, true) }

  /**
   * `x.trim().split(/\s+/).filter(w => w.length > 0).length`: the number of
   * maximal non-whitespace runs of `x`.
   */
  function WordGroups(x: string): nat { RunCount(x, false) }

  /** Runs add up over a concatenation that does not join two runs of the same kind. */
  lemma {:induction false} RunCountSplit(x: string, y: string, spaces: bool)
    requires x == [] || y == [] || IsSpace(x[|x| - 1]) != spaces || IsSpace(y[0]) != spaces
    ensures RunCount(x + y, spaces) == RunCount(x, spaces) + RunCount(y, spaces)
  {
    if x == [] {
      assert x + y == y;
    } else {
      assert (x + y)[1..] == x[1..] + y;
      assert (x + y)[0] == x[0];
      if |x| >= 2 {
        assert (x + y)[1] == x[1];
      } else if y != [] {
        assert (x + y)[1] == y[0];
      }
      RunCountSplit(x[1..], y, spaces);
    }
  }

  /** A non-empty run of one kind counts once for its kind and never for the other. */
  lemma {:induction false} RunCountUniform(x: string, spaces: bool)
    requires forall k :: 0 <= k < |x| ==> IsSpace(x[k]) == spaces
    ensures RunCount(x, spaces) == (if x == [] then 0 else 1)
    ensures RunCount(x, !spaces) == 0
  {
    if x != [] {
      RunCountUniform(x[1..], spaces);
    }
  }

  lemma SliceSplit(s: string, a: nat, b: nat, c: nat)
    requires a <= b <= c <= |s|
    ensures s[a..c] == s[a..b] + s[b..c]
  {
  }
}
