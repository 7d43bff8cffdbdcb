/**
 * The span parser `parseMentions` and the lookup `findMentionAtCursor`.
 *
 * For every trigger the parser runs the global regular expression
 * `trigger([\w-]+(?:\s+[\w-]+){0,N})`, N being `allowedSpacesCount ?? 0`.
 * Here the expression is a left-to-right scanner: the trigger is a literal
 * prefix, the name is a maximal `[\w-]` run followed by at most N groups of
 * (maximal `\s` run, maximal `[\w-]` run). The two classes are disjoint, so
 * the greedy match is this one and no other.
 */
module MentionUtils {
  import opened Wrappers
  import opened Types
  import opened Chars
  import opened Ordering

  /** The expression can match at `i`: the trigger is there and a `[\w-]` follows it. */
  predicate MatchAt(s: string, i: int, trigger: string)
  {
    OccursAt(s, i, trigger) && i + |trigger| < |s| && IsNameChar(s[i + |trigger|])
  }

  /** Greedy `(?:\s+[\w-]+){0,n}` from `j`: a group is taken only when a `[\w-]` follows the gap. */
  function GroupsEnd(s: string, j: nat, n: nat): (e: nat)
    requires j <= |s|
    ensures j <= e <= |s|
    decreases n
  {
    var w := SpaceRunEnd(s, j);
    if n > 0 && j < w < |s| && IsNameChar(s[w]) then GroupsEnd(s, WordRunEnd(s, w), n - 1) else j
  }

  /** The end of the capture `[\w-]+(?:\s+[\w-]+){0,n}` that starts at `i`. */
  function NameEnd(s: string, i: nat, n: nat): (e: nat)
    requires i < |s| && IsNameChar(s[i])
    ensures i < e <= |s|
  {
    GroupsEnd(s, WordRunEnd(s, i), n)
  }

  /** The language of the capture group: `[\w-]+(?:\s+[\w-]+){0,n}`. */
  predicate NameShape(name: string, n: nat)
  {
    && |name| > 0
    && IsNameChar(name[0])
    && IsNameChar(name[|name| - 1])
    && (forall k :: 0 <= k < |name| ==> IsNameChar(name[k]) || IsSpace(name[k]))
    && SpaceRuns(name) <= n
  }

  /**
   * Nothing the greedy match could still take follows `e`: no `[\w-]`, and,
   * while fewer than `n` groups were taken, no gap followed by a `[\w-]`.
   */
  predicate MaximalAt(s: string, e: nat, groups: nat, n: nat)
    requires e <= |s|
  {
    && (e == |s| || !IsNameChar(s[e]))
    && (groups < n ==> var w := SpaceRunEnd(s, e); !(e < w < |s| && IsNameChar(s[w])))
  }

  /** The mention built from the match at `i`: `id` is the whole match, `name` the capture. */
  function SpanAt(s: string, t: MentionTrigger, i: nat): (m: MentionRange)
    requires MatchAt(s, i, t.trigger)
    ensures m.start == i && i + |t.trigger| < m.end <= |s|
  {
    var e := NameEnd(s, i + |t.trigger|, t.MaxSpaces());
    MentionRange(MentionData(s[i..e], s[i + |t.trigger|..e], t.trigger, map[]), e, i)
  }

  /**
   * `m` is a match of trigger configuration `t` in `s`: the symbol sits at
   * `m.start`, the name after it is a maximal capture ending at `m.end`, the
   * `id` is the whole match and the `name` the capture.
   */
  predicate IsMatchSpan(s: string, t: MentionTrigger, m: MentionRange)
  {
    && 0 <= m.start && m.start + |t.trigger| < m.end <= |s|
    && s[m.start..m.start + |t.trigger|] == t.trigger
    && m.data == MentionData(s[m.start..m.end], s[m.start + |t.trigger|..m.end], t.trigger, map[])
    && IsCapture(s, m.start + |t.trigger|, m.end, t.MaxSpaces())
  }

  /** All non-overlapping matches of `t` at or after `from`, as `regex.exec` finds them. */
  function Scan(s: string, t: MentionTrigger, from: nat): seq<MentionRange>
    decreases |s| - from
  {
    if from >= |s| then []
    else if MatchAt(s, from, t.trigger) then
      var m := SpanAt(s, t, from);
      [m] + Scan(s, t, m.end)
    else Scan(s, t, from + 1)
  }

  /** The matches of every trigger, trigger by trigger, before the sort. */
  function Pooled(s: string, triggers: seq<MentionTrigger>): seq<MentionRange>
  {
    if triggers == [] then []
    else Pooled(s, triggers[..|triggers| - 1]) + Scan(s, triggers[|triggers| - 1], 0)
  }

  /** The value `parseMentions(text, triggers)` returns. */
  function Parse(s: string, triggers: seq<MentionTrigger>): seq<MentionRange>
  {
    SortByStart(Pooled(s, triggers))
  }

  /** `parseMentions`: one global scan per trigger, pooled, then sorted by `start`. */
  method ParseMentions(text: string, triggers: seq<MentionTrigger>) returns (mentions: seq<MentionRange>)
    ensures mentions == Parse(text, triggers)
  {
    var pooled: seq<MentionRange> := [];
    for k := 0 to |triggers|
      invariant pooled == Pooled(text, triggers[..k])
    {
      var t := triggers[k];
      var lastIndex: nat := 0;
      assert triggers[..k + 1][..k] == triggers[..k];
      while lastIndex < |text|
        invariant lastIndex <= |text|
        invariant pooled + Scan(text, t, lastIndex) == Pooled(text, triggers[..k + 1])
        decreases |text| - lastIndex
      {
        if MatchAt(text, lastIndex, t.trigger) {
          var m := SpanAt(text, t, lastIndex);
          pooled := pooled + [m];
          lastIndex := m.end;
        } else {
          lastIndex := lastIndex + 1;
        }
      }
    }
    assert triggers[..|triggers|] == triggers;
    mentions := SortByStart(pooled);
  }

  /** The cursor lies in `m`, both ends inclusive. */
  predicate Covers(m: MentionRange, cursor: int)
  {
    m.start <= cursor <= m.end
  }

  /** `findMentionAtCursor`: the first mention in list order whose range holds the cursor. */
  function FindMentionAtCursor(cursor: int, mentions: seq<MentionRange>): (r: Option<MentionRange>)
    ensures r.None? <==> forall k :: 0 <= k < |mentions| ==> !Covers(mentions[k], cursor)
    ensures r.Some? ==> exists k :: && 0 <= k < |mentions| && mentions[k] == r.value
                                    && Covers(mentions[k], cursor)
                                    && forall j :: 0 <= j < k ==> !Covers(mentions[j], cursor)
  {
    if mentions == [] then None
    else if Covers(mentions[0], cursor) then Some(mentions[0])
    else
      var r := FindMentionAtCursor(cursor, mentions[1..]);
      assert r.Some? ==> exists k :: && 1 <= k < |mentions| && mentions[k] == r.value
                                         && Covers(mentions[k], cursor)
                                         && forall j :: 1 <= j < k ==> !Covers(mentions[j], cursor);
      r
  }

  // ---------------------------------------------------------------------
  // The shape of one match

  /** `s[j..e]` is a run of groups `(?:\s+[\w-]+){0,n}` after a word, and greed stops at `e`. */
  predicate GroupsShape(s: string, j: nat, e: nat, n: nat)
    requires 0 < j <= e <= |s|
  {
    && IsNameChar(s[e - 1])
    && (forall k :: j <= k < e ==> IsNameChar(s[k]) || IsSpace(s[k]))
    && SpaceRuns(s[j..e]) <= n
    && MaximalAt(s, e, SpaceRuns(s[j..e]), n)
  }

  /** The groups after a word run form `(?:\s+[\w-]+){0,n}`, and the match stops where greed does. */
  lemma {:induction false} GroupsEndShape(s: string, j: nat, n: nat)
    requires 0 < j <= |s| && IsNameChar(s[j - 1]) && (j == |s| || !IsNameChar(s[j]))
    ensures GroupsShape(s, j, GroupsEnd(s, j, n), n)
    decreases n
  {
    var w := SpaceRunEnd(s, j);
    if n > 0 && j < w < |s| && IsNameChar(s[w]) {
      var v := WordRunEnd(s, w);
      GroupsEndShape(s, v, n - 1);
      GroupsStep(s, j, w, v, GroupsEnd(s, v, n - 1), n);
    } else {
      assert s[j..j] == [];
    }
  }

  /** One more gap and word in front of a run of `n - 1` groups make a run of `n`. */
  lemma GroupsStep(s: string, j: nat, w: nat, v: nat, e: nat, n: nat)
    requires 0 < n && 0 < j < w < v <= e <= |s|
    requires forall k :: j <= k < w ==> IsSpace(s[k])
    requires forall k :: w <= k < v ==> IsNameChar(s[k])
    requires GroupsShape(s, v, e, n - 1)
    ensures GroupsShape(s, j, e, n)
  {
    GapRuns(s, j, w, v, e);
  }

  /** A gap and a word in front of a run of groups add exactly one whitespace run. */
  lemma GapRuns(s: string, j: nat, w: nat, v: nat, e: nat)
    requires j < w < v <= e <= |s|
    requires forall k :: j <= k < w ==> IsSpace(s[k])
    requires forall k :: w <= k < v ==> IsNameChar(s[k])
    requires forall k :: v <= k < e ==> IsNameChar(s[k]) || IsSpace(s[k])
    ensures SpaceRuns(s[j..e]) == 1 + SpaceRuns(s[v..e])
    ensures forall k :: j <= k < e ==> IsNameChar(s[k]) || IsSpace(s[k])
  {
    SliceSplit(s, w, v, e);
    SliceSplit(s, j, w, e);
    RunCountUniform(s[j..w], true);
    RunCountUniform(s[w..v], false);
    RunCountSplit(s[w..v], s[v..e], true);
    RunCountSplit(s[j..w], s[w..v] + s[v..e], true);
  }

  /** `s[i..e]` is a name of the right shape, and the greedy match cannot extend it. */
  predicate IsCapture(s: string, i: nat, e: nat, n: nat)
  {
    i < e <= |s| && NameShape(s[i..e], n) && MaximalAt(s, e, SpaceRuns(s[i..e]), n)
  }

  /** The capture at `i` is a name of the right shape, and is maximal. */
  lemma NameEndShape(s: string, i: nat, n: nat)
    requires i < |s| && IsNameChar(s[i])
    ensures IsCapture(s, i, NameEnd(s, i, n), n)
  {
    var j := WordRunEnd(s, i);
    var e := NameEnd(s, i, n);
    GroupsEndShape(s, j, n);
    WordRuns(s, i, j, e);
  }

  /** A word in front of a run of groups adds no whitespace run. */
  lemma WordRuns(s: string, i: nat, j: nat, e: nat)
    requires i < j <= e <= |s|
    requires forall k :: i <= k < j ==> IsNameChar(s[k])
    requires forall k :: j <= k < e ==> IsNameChar(s[k]) || IsSpace(s[k])
    ensures SpaceRuns(s[i..e]) == SpaceRuns(s[j..e])
    ensures forall k :: 0 <= k < e - i ==> IsNameChar(s[i..e][k]) || IsSpace(s[i..e][k])
  {
    SliceSplit(s, i, j, e);
    RunCountUniform(s[i..j], false);
    RunCountSplit(s[i..j], s[j..e], true);
  }

  /** Every match the scanner builds is a well-formed span. */
  lemma SpanAtIsMatchSpan(s: string, t: MentionTrigger, i: nat)
    requires MatchAt(s, i, t.trigger)
    ensures IsMatchSpan(s, t, SpanAt(s, t, i))
  {
    var j := i + |t.trigger|;
    var e := NameEnd(s, j, t.MaxSpaces());
    NameEndShape(s, j, t.MaxSpaces());
    BuiltMatchSpan(s, t, i, e);
    SpanAtFields(s, t, i);
  }

  lemma SpanAtFields(s: string, t: MentionTrigger, i: nat)
    requires MatchAt(s, i, t.trigger)
    ensures var e := NameEnd(s, i + |t.trigger|, t.MaxSpaces());
            SpanAt(s, t, i) == MentionRange(MentionData(s[i..e], s[i + |t.trigger|..e], t.trigger, map[]), e, i)
  {
  }

  lemma BuiltMatchSpan(s: string, t: MentionTrigger, i: nat, e: nat)
    requires OccursAt(s, i, t.trigger) && IsCapture(s, i + |t.trigger|, e, t.MaxSpaces())
    ensures IsMatchSpan(s, t, MentionRange(MentionData(s[i..e], s[i + |t.trigger|..e], t.trigger, map[]), e, i))
  {
  }

  /** A match span reads as its symbol followed by its name. */
  lemma MatchSpanText(s: string, t: MentionTrigger, m: MentionRange)
    requires IsMatchSpan(s, t, m)
    ensures s[m.start..m.end] == t.trigger + m.data.name
    ensures m.end == m.start + |t.trigger| + |m.data.name|
    ensures NameShape(m.data.name, t.MaxSpaces())
  {
    SliceSplit(s, m.start, m.start + |t.trigger|, m.end);
  }

  // ---------------------------------------------------------------------
  // One trigger's scan

  /** Every span of a scan is the match the expression finds at its start, at or after `from`. */
  lemma {:induction false} ScanStarts(s: string, t: MentionTrigger, from: nat)
    ensures forall m :: m in Scan(s, t, from) ==>
              && from <= m.start
              && MatchAt(s, m.start, t.trigger)
              && m == SpanAt(s, t, m.start)
    decreases |s| - from
  {
    if from < |s| {
      if MatchAt(s, from, t.trigger) {
        var m := SpanAt(s, t, from);
        assert Scan(s, t, from) == [m] + Scan(s, t, m.end);
        ScanStarts(s, t, m.end);
      } else {
        assert Scan(s, t, from) == Scan(s, t, from + 1);
        ScanStarts(s, t, from + 1);
      }
    }
  }

  /** Every span of a scan is a well-formed match of its trigger at or after `from`. */
  lemma ScanSound(s: string, t: MentionTrigger, from: nat)
    ensures forall m :: m in Scan(s, t, from) ==>
              && from <= m.start
              && MatchAt(s, m.start, t.trigger)
              && IsMatchSpan(s, t, m)
  {
    ScanStarts(s, t, from);
    forall m | m in Scan(s, t, from) ensures IsMatchSpan(s, t, m) {
      SpanAtIsMatchSpan(s, t, m.start);
    }
  }

  /** Each span ends at or before the start of every later one. */
  predicate Disjoint(r: seq<MentionRange>)
  {
    forall i, j :: 0 <= i < j < |r| ==> r[i].end <= r[j].start
  }

  lemma DisjointCons(m: MentionRange, rest: seq<MentionRange>)
    requires Disjoint(rest)
    requires forall x :: x in rest ==> m.end <= x.start
    ensures Disjoint([m] + rest)
  {
    var r := [m] + rest;
    forall i, j | 0 <= i < j < |r| ensures r[i].end <= r[j].start {
      assert r[j] == rest[j - 1];
      if i > 0 {
        assert r[i] == rest[i - 1];
      }
    }
  }

  /** Spans of one scan never overlap, and each starts at or after the previous one's end. */
  lemma {:induction false} ScanDisjoint(s: string, t: MentionTrigger, from: nat)
    ensures Disjoint(Scan(s, t, from))
    decreases |s| - from
  {
    if from < |s| {
      if MatchAt(s, from, t.trigger) {
        var m := SpanAt(s, t, from);
        var rest := Scan(s, t, m.end);
        assert Scan(s, t, from) == [m] + rest;
        ScanDisjoint(s, t, m.end);
        ScanStarts(s, t, m.end);
        DisjointCons(m, rest);
      } else {
        assert Scan(s, t, from) == Scan(s, t, from + 1);
        ScanDisjoint(s, t, from + 1);
      }
    }
  }

  /** Every position at or after `from` where the expression can match lies in a span of `r`. */
  predicate CoversMatches(s: string, t: MentionTrigger, from: nat, r: seq<MentionRange>)
  {
    forall i :: from <= i < |s| && MatchAt(s, i, t.trigger) ==>
      exists k :: 0 <= k < |r| && r[k].start <= i < r[k].end
  }

  /** Every position at or after `from` where the expression can match lies in some span. */
  lemma {:induction false} ScanComplete(s: string, t: MentionTrigger, from: nat)
    ensures CoversMatches(s, t, from, Scan(s, t, from))
    decreases |s| - from
  {
    if from < |s| {
      if MatchAt(s, from, t.trigger) {
        var m := SpanAt(s, t, from);
        assert Scan(s, t, from) == [m] + Scan(s, t, m.end);
        ScanComplete(s, t, m.end);
        CoversCons(s, t, from, m, Scan(s, t, m.end));
      } else {
        assert Scan(s, t, from) == Scan(s, t, from + 1);
        ScanComplete(s, t, from + 1);
        CoversSkip(s, t, from, Scan(s, t, from));
      }
    }
  }

  /** A span from `from` to `m.end` and a cover of what follows it cover everything from `from`. */
  lemma CoversCons(s: string, t: MentionTrigger, from: nat, m: MentionRange, rest: seq<MentionRange>)
    requires m.start == from < m.end
    requires CoversMatches(s, t, m.end, rest)
    ensures CoversMatches(s, t, from, [m] + rest)
  {
    var r := [m] + rest;
    forall i | from <= i < |s| && MatchAt(s, i, t.trigger)
      ensures exists k :: 0 <= k < |r| && r[k].start <= i < r[k].end
    {
      if i < m.end {
        assert r[0] == m;
      } else {
        var k :| 0 <= k < |rest| && rest[k].start <= i < rest[k].end;
        assert r[k + 1] == rest[k];
      }
    }
  }

  /** A position where the expression cannot match needs no cover. */
  lemma CoversSkip(s: string, t: MentionTrigger, from: nat, r: seq<MentionRange>)
    requires !MatchAt(s, from, t.trigger)
    requires CoversMatches(s, t, from + 1, r)
    ensures CoversMatches(s, t, from, r)
  {
  }

  /** Spans of one scan are pairwise distinct. */
  lemma ScanNoDuplicates(s: string, t: MentionTrigger, from: nat)
    ensures NoDuplicates(Scan(s, t, from))
  {
    var r := Scan(s, t, from);
    ScanDisjoint(s, t, from);
    ScanStarts(s, t, from);
    forall i, j | 0 <= i < j < |r| ensures r[i] != r[j] {
      assert r[i] in r;
    }
  }

  // ---------------------------------------------------------------------
  // All triggers together

  lemma {:induction false} PooledMembers(s: string, triggers: seq<MentionTrigger>)
    ensures forall m :: m in Pooled(s, triggers) <==>
              exists k :: 0 <= k < |triggers| && m in Scan(s, triggers[k], 0)
    decreases |triggers|
  {
    if triggers != [] {
      var init := triggers[..|triggers| - 1];
      PooledMembers(s, init);
      forall m ensures m in Pooled(s, triggers) <==>
                       exists k :: 0 <= k < |triggers| && m in Scan(s, triggers[k], 0)
      {
        if m in Pooled(s, init) {
          var k :| 0 <= k < |init| && m in Scan(s, init[k], 0);
          assert triggers[k] == init[k];
        }
        if k :| 0 <= k < |triggers| && m in Scan(s, triggers[k], 0) {
          if k < |init| {
            assert init[k] == triggers[k];
          }
        }
      }
    }
  }

  /** The result is sorted by `start` and holds exactly the spans of the per-trigger scans. */
  lemma ParseSortedPermutation(s: string, triggers: seq<MentionTrigger>)
    ensures SortedByStart(Parse(s, triggers))
    ensures multiset(Parse(s, triggers)) == multiset(Pooled(s, triggers))
    ensures forall m :: m in Parse(s, triggers) <==>
              exists k :: 0 <= k < |triggers| && m in Scan(s, triggers[k], 0)
  {
    SortByStartSortedPermutation(Pooled(s, triggers));
    SortByStartMembers(Pooled(s, triggers));
    PooledMembers(s, triggers);
  }

  /** Every span of the result is a well-formed, maximal match of one of the triggers. */
  lemma ParseSound(s: string, triggers: seq<MentionTrigger>)
    ensures forall m :: m in Parse(s, triggers) ==>
              exists k :: 0 <= k < |triggers| && MatchAt(s, m.start, triggers[k].trigger)
                          && IsMatchSpan(s, triggers[k], m)
  {
    ParseSortedPermutation(s, triggers);
    forall m | m in Parse(s, triggers)
      ensures exists k :: 0 <= k < |triggers| && MatchAt(s, m.start, triggers[k].trigger)
                          && IsMatchSpan(s, triggers[k], m)
    {
      var k :| 0 <= k < |triggers| && m in Scan(s, triggers[k], 0);
      ScanSound(s, triggers[k], 0);
    }
  }

  /**
   * Every occurrence of a trigger that is followed by a `[\w-]` lies in a span
   * of that trigger. The preceding character is never looked at.
   */
  lemma ParseComplete(s: string, triggers: seq<MentionTrigger>)
    ensures forall k, i :: 0 <= k < |triggers| && MatchAt(s, i, triggers[k].trigger) ==>
              exists m :: m in Parse(s, triggers) && m.data.trigger == triggers[k].trigger
                          && m.start <= i < m.end
  {
    ParseSortedPermutation(s, triggers);
    forall k, i | 0 <= k < |triggers| && MatchAt(s, i, triggers[k].trigger)
      ensures exists m :: m in Parse(s, triggers) && m.data.trigger == triggers[k].trigger
                          && m.start <= i < m.end
    {
      var r := Scan(s, triggers[k], 0);
      ScanComplete(s, triggers[k], 0);
      ScanSound(s, triggers[k], 0);
      var j :| 0 <= j < |r| && r[j].start <= i < r[j].end;
      assert r[j] in r;
    }
  }

  /** No trigger followed by a `[\w-]` anywhere (empty text included) exactly when nothing is found. */
  lemma ParseEmpty(s: string, triggers: seq<MentionTrigger>)
    ensures Parse(s, triggers) == [] <==>
              forall k, i :: 0 <= k < |triggers| ==> !MatchAt(s, i, triggers[k].trigger)
  {
    ParseSound(s, triggers);
    ParseComplete(s, triggers);
    if Parse(s, triggers) != [] {
      assert Parse(s, triggers)[0] in Parse(s, triggers);
    }
  }

  /** Distinct trigger symbols. */
  predicate DistinctTriggers(triggers: seq<MentionTrigger>)
  {
    forall i, j :: 0 <= i < j < |triggers| ==> triggers[i].trigger != triggers[j].trigger
  }

  lemma {:induction false} PooledNoDuplicates(s: string, triggers: seq<MentionTrigger>)
    requires DistinctTriggers(triggers)
    ensures NoDuplicates(Pooled(s, triggers))
    decreases |triggers|
  {
    if triggers != [] {
      var init := triggers[..|triggers| - 1];
      var last := triggers[|triggers| - 1];
      PooledNoDuplicates(s, init);
      PooledMembers(s, init);
      ScanNoDuplicates(s, last, 0);
      ScanSound(s, last, 0);
      forall m | m in Pooled(s, init) && m in Scan(s, last, 0) ensures false {
        var k :| 0 <= k < |init| && m in Scan(s, init[k], 0);
        ScanSound(s, init[k], 0);
      }
      NoDuplicatesConcat(Pooled(s, init), Scan(s, last, 0));
    }
  }

  /**
   * With distinct trigger symbols, two spans of the result with the same
   * trigger never overlap: the earlier one ends before the later one starts.
   */
  lemma ParseSameTriggerDisjoint(s: string, triggers: seq<MentionTrigger>)
    requires DistinctTriggers(triggers)
    ensures var p := Parse(s, triggers);
            forall i, j :: 0 <= i < j < |p| && p[i].data.trigger == p[j].data.trigger ==>
              p[i].end <= p[j].start
  {
    var p := Parse(s, triggers);
    ParseSortedPermutation(s, triggers);
    PooledNoDuplicates(s, triggers);
    SortByStartNoDuplicates(Pooled(s, triggers));
    forall i, j | 0 <= i < j < |p| && p[i].data.trigger == p[j].data.trigger
      ensures p[i].end <= p[j].start
    {
      assert p[i] in p && p[j] in p;
      var ki :| 0 <= ki < |triggers| && p[i] in Scan(s, triggers[ki], 0);
      var kj :| 0 <= kj < |triggers| && p[j] in Scan(s, triggers[kj], 0);
      ScanSound(s, triggers[ki], 0);
      ScanSound(s, triggers[kj], 0);
      assert ki == kj;
      var r := Scan(s, triggers[ki], 0);
      ScanDisjoint(s, triggers[ki], 0);
      var a :| 0 <= a < |r| && r[a] == p[i];
      var b :| 0 <= b < |r| && r[b] == p[j];
      assert a != b;
    }
  }

  // ---------------------------------------------------------------------
  // Where the code and its tests disagree

  /** The greedy capture after "@" in "@James Smith \n\nIt was great" with two groups allowed. */
  lemma GreedyNameAcrossBlankLine(s: string)
    requires s == "@James Smith \n\nIt was great"
    ensures NameEnd(s, 1, 2) == 17
    ensures s[1..17] == "James Smith \n\nIt"
  {
    BlankLineRuns(s);
    assert GroupsEnd(s, 17, 0) == 17;
    assert GroupsEnd(s, 12, 1) == 17;
    BlankLineName(s);
  }

  lemma BlankLineRuns(s: string)
    requires s == "@James Smith \n\nIt was great"
    ensures WordRunEnd(s, 1) == 6 && SpaceRunEnd(s, 6) == 7 && WordRunEnd(s, 7) == 12
    ensures SpaceRunEnd(s, 12) == 15 && WordRunEnd(s, 15) == 17
  {
    BlankLineWords(s);
    BlankLineSpaces(s);
  }

  lemma BlankLineWords(s: string)
    requires s == "@James Smith \n\nIt was great"
    ensures WordRunEnd(s, 1) == 6 && WordRunEnd(s, 7) == 12 && WordRunEnd(s, 15) == 17
  {
    assert !IsNameChar(s[6]) && !IsNameChar(s[12]) && !IsNameChar(s[17]);
  }

  lemma BlankLineSpaces(s: string)
    requires s == "@James Smith \n\nIt was great"
    ensures SpaceRunEnd(s, 6) == 7 && SpaceRunEnd(s, 12) == 15
  {
    assert IsSpace(s[6]) && !IsSpace(s[7]);
    assert IsSpace(s[12]) && IsSpace(s[13]) && IsSpace(s[14]) && !IsSpace(s[15]);
  }

  lemma BlankLineName(s: string)
    requires s == "@James Smith \n\nIt was great"
    ensures s[1..17] == "James Smith \n\nIt"
  {
    var name := "James Smith \n\nIt";
    var cut := s[1..17];
    assert |cut| == |name| == 16;
    forall k | 0 <= k < 16 ensures cut[k] == name[k] {
      assert cut[k] == s[k + 1];
    }
    assert cut == name;
  }

  /**
   * `\s` also matches line breaks, so with two extra groups allowed the name
   * runs on across a blank line: "@James Smith \n\nIt was great" gives the
   * single name "James Smith \n\nIt", not the "James Smith" the library's
   * own expectation names.
   */
  lemma NameCrossesNewlines(s: string, triggers: seq<MentionTrigger>)
    requires s == "@James Smith \n\nIt was great"
    requires triggers == [MentionTrigger(Some(2), None, "@")]
    ensures exists m :: m in Parse(s, triggers) && m.start == 0 && m.end == 17
                        && m.data.name == "James Smith \n\nIt"
    ensures forall m :: m in Parse(s, triggers) ==> m.data.name != "James Smith"
    ensures |Parse(s, triggers)| == 1
  {
    var t := triggers[0];
    assert MatchAt(s, 0, "@");
    GreedyNameAcrossBlankLine(s);
    var m := SpanAt(s, t, 0);
    assert m.end == 17;
    assert m.data.name == "James Smith \n\nIt";
    assert Scan(s, t, 0) == [m] + Scan(s, t, 17);
    PooledMembers(s, triggers);
    SortByStartMembers(Pooled(s, triggers));
    assert m in Parse(s, triggers);
    NoSymbolAfterName(s, t);
    forall m' | m' in Parse(s, triggers) ensures m' == m {
      assert m' in Scan(s, t, 0);
    }
    assert Pooled(s, triggers) == [m];
    ParseSortedPermutation(s, triggers);
    assert |multiset(Parse(s, triggers))| == 1;
  }

  /** " was great" holds no `@`, so the scan finds nothing after the first name. */
  lemma NoSymbolAfterName(s: string, t: MentionTrigger)
    requires s == "@James Smith \n\nIt was great" && t.trigger == "@"
    ensures Scan(s, t, 17) == []
  {
    var k := 17;
    while k < |s|
      invariant 17 <= k <= |s|
      invariant Scan(s, t, 17) == Scan(s, t, k)
    {
      assert s[k] != '@';
      ScanSkip(s, t, k);
      k := k + 1;
    }
  }

  lemma ScanSkip(s: string, t: MentionTrigger, k: nat)
    requires k < |s| && |t.trigger| == 1 && s[k] != t.trigger[0]
    ensures Scan(s, t, k) == Scan(s, t, k + 1)
  {
    assert s[k..k + 1][0] == s[k];
  }
}
