/**
 * How `MentionText` cuts a text into the plain and mention segments it
 * renders: the choice between the given spans and the parsed ones, the
 * filter and sort of the spans, and the `lastIndex` walk that emits the
 * segments. Styling and the React elements are not modelled.
 */
module MentionTextModel {
  import opened Wrappers
  import opened Types
  import opened Chars
  import opened Ordering
  import MentionUtils

  /** One rendered segment: plain text, or a mention with its data and display text. */
  datatype Part = Plain(text: string) | Mention(data: MentionData, text: string)

  /** `providedMentions` when given (an empty array is truthy), else the parsed spans. */
  function SelectMentions(provided: Option<seq<MentionRange>>, text: string,
                          triggers: seq<MentionTrigger>): (r: seq<MentionRange>)
    ensures provided.Some? ==> r == provided.value
    ensures provided.None? ==> r == MentionUtils.Parse(text, triggers)
  {
    match provided
    case Some(ms) => ms
    case None => MentionUtils.Parse(text, triggers)
  }

  /** `m.start >= 0 && m.end <= text.length && m.start < m.end` */
  predicate IsRenderable(m: MentionRange, len: nat)
  {
    0 <= m.start && m.end <= len && m.start < m.end
  }

  /** The `filter` step: the renderable spans, in their order, each as often as given. */
  function Renderable(ms: seq<MentionRange>, len: nat): (r: seq<MentionRange>)
    ensures forall x :: x in r <==> x in ms && IsRenderable(x, len)
    ensures forall x :: multiset(r)[x] == if IsRenderable(x, len) then multiset(ms)[x] else 0
  {
    if ms == [] then []
    else
      assert ms == [ms[0]] + ms[1..];
      (if IsRenderable(ms[0], len) then [ms[0]] else []) + Renderable(ms[1..], len)
  }

  /** `validMentions`: the renderable spans sorted by `start`. */
  function ValidMentions(text: string, ms: seq<MentionRange>): seq<MentionRange>
  {
    SortByStart(Renderable(ms, |text|))
  }

  /** `triggers.find(t => t.trigger === symbol)` */
  function FindTrigger(triggers: seq<MentionTrigger>, symbol: string): Option<MentionTrigger>
  {
    if triggers == [] then None
    else if triggers[0].trigger == symbol then Some(triggers[0])
    else FindTrigger(triggers[1..], symbol)
  }

  /** `find` returns the first configuration with the symbol, and nothing when none has it. */
  lemma {:induction false} FindTriggerSpec(triggers: seq<MentionTrigger>, symbol: string)
    ensures var r := FindTrigger(triggers, symbol);
            && (r.None? <==> forall k :: 0 <= k < |triggers| ==> triggers[k].trigger != symbol)
            && (r.Some? ==> exists k :: && 0 <= k < |triggers| && triggers[k] == r.value
                                        && r.value.trigger == symbol
                                        && forall j :: 0 <= j < k ==> triggers[j].trigger != symbol)
  {
    if triggers != [] && triggers[0].trigger != symbol {
      var r := FindTrigger(triggers[1..], symbol);
      FindTriggerSpec(triggers[1..], symbol);
      if r.Some? {
        var k :| && 0 <= k < |triggers[1..]| && triggers[1..][k] == r.value
                 && forall j :: 0 <= j < k ==> triggers[1..][j].trigger != symbol;
        assert triggers[k + 1] == r.value;
        assert forall j :: 1 <= j < k + 1 ==> triggers[j].trigger != symbol by {
          forall j | 1 <= j < k + 1 ensures triggers[j].trigger != symbol {
            assert triggers[j] == triggers[1..][j - 1];
          }
        }
      } else {
        assert forall k :: 1 <= k < |triggers| ==> triggers[k].trigger != symbol by {
          forall k | 1 <= k < |triggers| ensures triggers[k].trigger != symbol {
            assert triggers[k] == triggers[1..][k - 1];
          }
        }
      }
    }
  }

  /** `triggerConfig?.hideTrigger ?? false` */
  function ShouldHide(triggers: seq<MentionTrigger>, symbol: string): bool
  {
    match FindTrigger(triggers, symbol)
    case Some(t) => t.hideTrigger.GetOr(false)
    case None => false
  }

  /** `displayContent`: the span's text, with the first occurrence of its symbol removed when hidden. */
  function Display(text: string, m: MentionRange, triggers: seq<MentionTrigger>): string
    requires IsRenderable(m, |text|)
  {
    var content := text[m.start..m.end];
    if ShouldHide(triggers, m.data.trigger) then RemoveFirst(content, m.data.trigger) else content
  }

  predicate AllRenderable(ms: seq<MentionRange>, len: nat)
  {
    forall i :: 0 <= i < |ms| ==> IsRenderable(ms[i], len)
  }

  /** The segments the walk emits from `lastIndex` on, over the remaining spans `ms`. */
  function FragmentsFrom(text: string, ms: seq<MentionRange>, lastIndex: nat,
                         triggers: seq<MentionTrigger>): seq<Part>
    requires AllRenderable(ms, |text|)
  {
    if ms == [] then
      if lastIndex < |text| then [Plain(SliceFrom(text, lastIndex))] else []
    else
      var m := ms[0];
      (if m.start > lastIndex then [Plain(Slice(text, lastIndex, m.start))] else [])
      + [Mention(m.data, Display(text, m, triggers))]
      + FragmentsFrom(text, ms[1..], m.end, triggers)
  }

  /** The text the segments show, one after the other. */
  function Shown(parts: seq<Part>): string
  {
    if parts == [] then [] else parts[0].text + Shown(parts[1..])
  }

  /** The mention segments alone, in order. */
  function MentionParts(parts: seq<Part>): seq<Part>
  {
    if parts == [] then []
    else (if parts[0].Mention? then [parts[0]] else []) + MentionParts(parts[1..])
  }

  /** Each span starts at or after the previous one's end, the first at or after `from`. */
  predicate Chained(ms: seq<MentionRange>, from: int)
  {
    ms == [] || (from <= ms[0].start && Chained(ms[1..], ms[0].end))
  }

  // ---------------------------------------------------------------------
  // The walk as the component performs it

  /** The `fragments` memo: filter, sort, then the `forEach` walk with `lastIndex`. */
  method Fragments(text: string, mentions: seq<MentionRange>, triggers: seq<MentionTrigger>)
    returns (parts: seq<Part>)
    ensures AllRenderable(ValidMentions(text, mentions), |text|)
    ensures parts == FragmentsFrom(text, ValidMentions(text, mentions), 0, triggers)
  {
    var valid := ValidMentions(text, mentions);
    ValidMentionsRenderable(text, mentions);
    parts := [];
    var lastIndex: nat := 0;
    for i := 0 to |valid|
      invariant parts + FragmentsFrom(text, valid[i..], lastIndex, triggers)
                == FragmentsFrom(text, valid, 0, triggers)
    {
      var mention := valid[i];
      FragmentsStep(text, valid, i, lastIndex, triggers);
      ghost var gap := if mention.start > lastIndex then [Plain(Slice(text, lastIndex, mention.start))] else [];
      ghost var here := [Mention(mention.data, Display(text, mention, triggers))];
      ghost var rest := FragmentsFrom(text, valid[i + 1..], mention.end, triggers);
      ghost var before := parts;
      WalkStep(parts, gap, here, rest);
      if mention.start > lastIndex {
        parts := parts + [Plain(Slice(text, lastIndex, mention.start))];
      }
      var mentionContent := Slice(text, mention.start, mention.end);
      var displayContent := if ShouldHide(triggers, mention.data.trigger)
                            then RemoveFirst(mentionContent, mention.data.trigger)
                            else mentionContent;
      parts := parts + [Mention(mention.data, displayContent)];
      lastIndex := mention.end;
      assert parts == before + gap + here;
    }
    assert valid[|valid|..] == [];
    if lastIndex < |text| {
      parts := parts + [Plain(SliceFrom(text, lastIndex))];
    }
  }

  lemma WalkStep(parts: seq<Part>, gap: seq<Part>, here: seq<Part>, rest: seq<Part>)
    ensures parts + (gap + here + rest) == parts + gap + here + rest
  {
  }

  /** One turn of the walk: the gap before span `i`, if any, then span `i`. */
  lemma FragmentsStep(text: string, valid: seq<MentionRange>, i: nat, lastIndex: nat,
                      triggers: seq<MentionTrigger>)
    requires AllRenderable(valid, |text|) && i < |valid|
    ensures AllRenderable(valid[i..], |text|) && AllRenderable(valid[i + 1..], |text|)
    ensures var m := valid[i];
            FragmentsFrom(text, valid[i..], lastIndex, triggers)
            == (if m.start > lastIndex then [Plain(Slice(text, lastIndex, m.start))] else [])
               + [Mention(m.data, Display(text, m, triggers))]
               + FragmentsFrom(text, valid[i + 1..], m.end, triggers)
  {
    assert valid[i..][0] == valid[i] && valid[i..][1..] == valid[i + 1..];
    RenderableSuffix(valid, |text|, i);
    RenderableSuffix(valid, |text|, i + 1);
  }

  lemma RenderableSuffix(ms: seq<MentionRange>, len: nat, k: nat)
    requires AllRenderable(ms, len) && k <= |ms|
    ensures AllRenderable(ms[k..], len)
  {
    var rest := ms[k..];
    forall j | 0 <= j < |rest| ensures IsRenderable(rest[j], len) {
      assert rest[j] == ms[k + j];
    }
  }

  /** The component: `children || ""`, the span choice, then the segments. */
  method MentionText(children: Option<string>, provided: Option<seq<MentionRange>>,
                     triggers: seq<MentionTrigger>) returns (parts: seq<Part>)
    ensures var text := children.GetOr("");
            var valid := ValidMentions(text, SelectMentions(provided, text, triggers));
            AllRenderable(valid, |text|) && parts == FragmentsFrom(text, valid, 0, triggers)
  {
    var text := children.GetOr("");
    var mentions := SelectMentions(provided, text, triggers);
    parts := Fragments(text, mentions, triggers);
  }

  // ---------------------------------------------------------------------
  // Properties of the span choice and the filter

  /** The filter keeps the order of its input: it distributes over concatenation. */
  lemma {:induction false} RenderableConcat(a: seq<MentionRange>, b: seq<MentionRange>, len: nat)
    ensures Renderable(a + b, len) == Renderable(a, len) + Renderable(b, len)
  {
    if a == [] {
      assert a + b == b;
    } else {
      var h := if IsRenderable(a[0], len) then [a[0]] else [];
      assert (a + b)[0] == a[0] && (a + b)[1..] == a[1..] + b;
      RenderableConcat(a[1..], b, len);
      assert Renderable(a + b, len) == h + (Renderable(a[1..], len) + Renderable(b, len));
      ConcatAssoc(h, Renderable(a[1..], len), Renderable(b, len));
    }
  }

  /** Among the spans with one `start`, the filter keeps the renderable ones in their given order. */
  lemma {:induction false} RenderableWithStart(ms: seq<MentionRange>, len: nat, k: int)
    ensures WithStart(Renderable(ms, len), k) == Renderable(WithStart(ms, k), len)
  {
    if ms != [] {
      var x := ms[0];
      var rest := ms[1..];
      var h := if IsRenderable(x, len) then [x] else [];
      var w := if x.start == k then [x] else [];
      assert Renderable(ms, len) == h + Renderable(rest, len);
      WithStartConcat(h, Renderable(rest, len), k);
      RenderableWithStart(rest, len, k);
      assert WithStart(ms, k) == w + WithStart(rest, k);
      RenderableConcat(w, WithStart(rest, k), len);
      assert WithStart(h, k) == Renderable(w, len) by {
        WithStartCons(x, [], k);
        assert [x] + [] == [x];
        assert [x][1..] == [];
      }
    }
  }

  /**
   * The spans processed are exactly the renderable ones, each as often as
   * given, in ascending `start` order, with ties in their given order.
   */
  lemma ValidMentionsSpec(text: string, ms: seq<MentionRange>)
    ensures AllRenderable(ValidMentions(text, ms), |text|)
    ensures SortedByStart(ValidMentions(text, ms))
    ensures forall x :: x in ValidMentions(text, ms) <==> x in ms && IsRenderable(x, |text|)
    ensures multiset(ValidMentions(text, ms)) == multiset(Renderable(ms, |text|))
    ensures forall k :: WithStart(ValidMentions(text, ms), k) == Renderable(WithStart(ms, k), |text|)
  {
    var r := Renderable(ms, |text|);
    SortByStartSortedPermutation(r);
    SortByStartMembers(r);
    forall k ensures WithStart(ValidMentions(text, ms), k) == Renderable(WithStart(ms, k), |text|) {
      SortByStartStable(r, k);
      RenderableWithStart(ms, |text|, k);
    }
    forall i | 0 <= i < |ValidMentions(text, ms)| ensures IsRenderable(ValidMentions(text, ms)[i], |text|) {
      assert ValidMentions(text, ms)[i] in ValidMentions(text, ms);
    }
  }

  lemma ValidMentionsRenderable(text: string, ms: seq<MentionRange>)
    ensures AllRenderable(ValidMentions(text, ms), |text|)
  {
    ValidMentionsSpec(text, ms);
  }

  /** Sorting spans that are already in `start` order changes nothing. */
  lemma {:induction false} SortByStartIdentity(s: seq<MentionRange>)
    requires SortedByStart(s)
    ensures SortByStart(s) == s
  {
    if s != [] {
      SortByStartIdentity(s[1..]);
      assert s == [s[0]] + s[1..];
    }
  }

  /** Empty text renders nothing, whatever spans are given. */
  lemma EmptyTextRendersNothing(ms: seq<MentionRange>, triggers: seq<MentionTrigger>)
    ensures ValidMentions("", ms) == []
    ensures FragmentsFrom("", ValidMentions("", ms), 0, triggers) == []
  {
    ValidMentionsSpec("", ms);
  }

  /** An explicitly empty span list is used as is: the whole text is one plain segment. */
  lemma ProvidedEmptyWinsOverParsing(text: string, triggers: seq<MentionTrigger>)
    ensures var valid := ValidMentions(text, SelectMentions(Some([]), text, triggers));
            valid == []
            && FragmentsFrom(text, valid, 0, triggers) == (if text == [] then [] else [Plain(text)])
  {
  }

  // ---------------------------------------------------------------------
  // Properties of the walk

  lemma {:induction false} ShownConcat(a: seq<Part>, b: seq<Part>)
    ensures Shown(a + b) == Shown(a) + Shown(b)
  {
    if a == [] {
      assert a + b == b;
    } else {
      assert (a + b)[0] == a[0];
      assert (a + b)[1..] == a[1..] + b;
      ShownConcat(a[1..], b);
    }
  }

  lemma {:induction false} MentionPartsConcat(a: seq<Part>, b: seq<Part>)
    ensures MentionParts(a + b) == MentionParts(a) + MentionParts(b)
  {
    if a == [] {
      assert a + b == b;
    } else {
      assert (a + b)[0] == a[0];
      assert (a + b)[1..] == a[1..] + b;
      MentionPartsConcat(a[1..], b);
    }
  }

  /** A plain segment is never empty: adjacent spans and a span at the very end add none. */
  lemma {:induction false} NoEmptyPlain(text: string, ms: seq<MentionRange>, lastIndex: nat,
                                        triggers: seq<MentionTrigger>)
    requires AllRenderable(ms, |text|)
    requires lastIndex <= |text|
    ensures forall p :: p in FragmentsFrom(text, ms, lastIndex, triggers) && p.Plain? ==> p.text != []
  {
    if ms != [] {
      var m := ms[0];
      assert AllRenderable(ms[1..], |text|) by {
        forall i | 0 <= i < |ms[1..]| ensures IsRenderable(ms[1..][i], |text|) {
          assert ms[1..][i] == ms[i + 1];
        }
      }
      assert IsRenderable(m, |text|);
      NoEmptyPlain(text, ms[1..], m.end, triggers);
    }
  }

  /**
   * The mention segments are the spans, one each and in order, with each
   * span's data and its display text.
   */
  lemma {:induction false} MentionPartsAreSpans(text: string, ms: seq<MentionRange>, lastIndex: nat,
                                                triggers: seq<MentionTrigger>)
    requires AllRenderable(ms, |text|)
    ensures var mp := MentionParts(FragmentsFrom(text, ms, lastIndex, triggers));
            && |mp| == |ms|
            && forall i :: 0 <= i < |ms| ==> mp[i] == Mention(ms[i].data, Display(text, ms[i], triggers))
  {
    if ms == [] {
      if lastIndex < |text| {
        assert MentionParts([Plain(SliceFrom(text, lastIndex))]) == [] + MentionParts([]);
      }
    } else {
      var m := ms[0];
      RenderableSuffix(ms, |text|, 1);
      var gap := if m.start > lastIndex then [Plain(Slice(text, lastIndex, m.start))] else [];
      var here := [Mention(m.data, Display(text, m, triggers))];
      var rest := FragmentsFrom(text, ms[1..], m.end, triggers);
      assert FragmentsFrom(text, ms, lastIndex, triggers) == gap + here + rest;
      MentionPartsAreSpans(text, ms[1..], m.end, triggers);
      MentionPartsConcat(gap + here, rest);
      MentionPartsConcat(gap, here);
      assert MentionParts(gap) == [] by {
        if gap != [] {
          assert MentionParts(gap) == [] + MentionParts([]);
        }
      }
      assert MentionParts(here) == here by {
        assert MentionParts(here) == here + MentionParts([]);
      }
      var mp := MentionParts(FragmentsFrom(text, ms, lastIndex, triggers));
      assert mp == here + MentionParts(rest);
      forall i | 0 <= i < |ms| ensures mp[i] == Mention(ms[i].data, Display(text, ms[i], triggers)) {
        if i > 0 {
          assert ms[1..][i - 1] == ms[i];
        }
      }
    }
  }

  /** No span's symbol is configured to be hidden. */
  predicate NoneHidden(ms: seq<MentionRange>, triggers: seq<MentionTrigger>)
  {
    forall i :: 0 <= i < |ms| ==> !ShouldHide(triggers, ms[i].data.trigger)
  }

  lemma NoneHiddenTail(ms: seq<MentionRange>, triggers: seq<MentionTrigger>)
    requires ms != [] && NoneHidden(ms, triggers)
    ensures !ShouldHide(triggers, ms[0].data.trigger) && NoneHidden(ms[1..], triggers)
  {
    forall i | 0 <= i < |ms[1..]| ensures !ShouldHide(triggers, ms[1..][i].data.trigger) {
      assert ms[1..][i] == ms[i + 1];
    }
  }

  /**
   * For spans in order that do not overlap and whose symbols are not hidden,
   * the segments show exactly the text from `lastIndex` on.
   */
  lemma {:induction false} FragmentsReassemble(text: string, ms: seq<MentionRange>, lastIndex: nat,
                                               triggers: seq<MentionTrigger>)
    requires AllRenderable(ms, |text|)
    requires Chained(ms, lastIndex)
    requires lastIndex <= |text|
    requires NoneHidden(ms, triggers)
    ensures Shown(FragmentsFrom(text, ms, lastIndex, triggers)) == text[lastIndex..]
  {
    if ms == [] {
      if lastIndex < |text| {
        assert Shown([Plain(text[lastIndex..])]) == text[lastIndex..] + Shown([]);
      }
    } else {
      var m := ms[0];
      RenderableSuffix(ms, |text|, 1);
      NoneHiddenTail(ms, triggers);
      FragmentsReassemble(text, ms[1..], m.end, triggers);
      ShownFirst(text, ms, lastIndex, triggers);
      SliceSplit(text, lastIndex, m.end, |text|);
      assert text[lastIndex..] == text[lastIndex..|text|] && text[m.end..] == text[m.end..|text|];
    }
  }

  /** The first turn of the walk shows the gap before the first span and then the span itself. */
  lemma ShownFirst(text: string, ms: seq<MentionRange>, lastIndex: nat, triggers: seq<MentionTrigger>)
    requires AllRenderable(ms, |text|) && ms != [] && lastIndex <= ms[0].start
    requires !ShouldHide(triggers, ms[0].data.trigger)
    ensures AllRenderable(ms[1..], |text|)
    ensures Shown(FragmentsFrom(text, ms, lastIndex, triggers))
            == text[lastIndex..ms[0].end] + Shown(FragmentsFrom(text, ms[1..], ms[0].end, triggers))
  {
    var m := ms[0];
    RenderableSuffix(ms, |text|, 1);
    var gap := if m.start > lastIndex then [Plain(Slice(text, lastIndex, m.start))] else [];
    var mention := [Mention(m.data, Display(text, m, triggers))];
    var rest := FragmentsFrom(text, ms[1..], m.end, triggers);
    assert FragmentsFrom(text, ms, lastIndex, triggers) == gap + mention + rest;
    ShownConcat(gap + mention, rest);
    ShownConcat(gap, mention);
    assert Shown(gap) == text[lastIndex..m.start] by {
      if m.start > lastIndex {
        assert Shown(gap) == gap[0].text + Shown([]);
      }
    }
    ShownTriggerKeepsText(text, m, triggers);
    assert Shown(mention) == text[m.start..m.end] by {
      assert Shown(mention) == mention[0].text + Shown([]);
    }
    assert text[lastIndex..m.end] == text[lastIndex..m.start] + text[m.start..m.end];
  }

  /**
   * With the symbol hidden, a span that reads as its symbol followed by its
   * name displays just the name.
   */
  lemma HiddenTriggerShowsName(text: string, m: MentionRange, triggers: seq<MentionTrigger>)
    requires IsRenderable(m, |text|)
    requires text[m.start..m.end] == m.data.trigger + m.data.name
    requires ShouldHide(triggers, m.data.trigger)
    ensures Display(text, m, triggers) == m.data.name
  {
    var content := text[m.start..m.end];
    RemoveFirstSpec(content, m.data.trigger);
    assert OccursAt(content, 0, m.data.trigger) by {
      assert content[0..|m.data.trigger|] == m.data.trigger;
    }
    assert content[|m.data.trigger|..] == m.data.name;
  }

  /** Without hiding a mention segment shows the span's text unchanged. */
  lemma ShownTriggerKeepsText(text: string, m: MentionRange, triggers: seq<MentionTrigger>)
    requires IsRenderable(m, |text|)
    requires !ShouldHide(triggers, m.data.trigger)
    ensures Display(text, m, triggers) == text[m.start..m.end]
  {
  }

  // ---------------------------------------------------------------------
  // Rendering parsed text

  lemma {:induction false} DisjointChained(ms: seq<MentionRange>, from: int)
    requires MentionUtils.Disjoint(ms)
    requires forall i :: 0 <= i < |ms| ==> from <= ms[i].start
    ensures Chained(ms, from)
  {
    if ms != [] {
      assert MentionUtils.Disjoint(ms[1..]) by {
        forall i, j | 0 <= i < j < |ms[1..]| ensures ms[1..][i].end <= ms[1..][j].start {
          assert ms[1..][i] == ms[i + 1] && ms[1..][j] == ms[j + 1];
        }
      }
      forall i | 0 <= i < |ms[1..]| ensures ms[0].end <= ms[1..][i].start {
        assert ms[1..][i] == ms[i + 1];
      }
      DisjointChained(ms[1..], ms[0].end);
    }
  }

  /** The parsed spans of one trigger are renderable, in order and pairwise disjoint. */
  lemma ParsedSpansChained(text: string, t: MentionTrigger)
    ensures var p := MentionUtils.Parse(text, [t]);
            && AllRenderable(p, |text|)
            && SortedByStart(p)
            && Chained(p, 0)
            && forall i :: 0 <= i < |p| ==> p[i].data.trigger == t.trigger
  {
    var p := MentionUtils.Parse(text, [t]);
    MentionUtils.ParseSound(text, [t]);
    MentionUtils.ParseSortedPermutation(text, [t]);
    forall i | 0 <= i < |p| ensures IsRenderable(p[i], |text|) && p[i].data.trigger == t.trigger {
      assert p[i] in p;
    }
    MentionUtils.ParseSameTriggerDisjoint(text, [t]);
    DisjointChained(p, 0);
  }

  /**
   * A text rendered with one trigger whose symbol is not hidden, and no
   * given spans, shows exactly the original text, and its mention segments
   * are the parsed spans in order.
   */
  lemma ParsedTextReassembles(text: string, t: MentionTrigger)
    requires !t.hideTrigger.GetOr(false)
    ensures var valid := ValidMentions(text, SelectMentions(None, text, [t]));
            && valid == MentionUtils.Parse(text, [t])
            && AllRenderable(valid, |text|)
            && Shown(FragmentsFrom(text, valid, 0, [t])) == text
  {
    var p := MentionUtils.Parse(text, [t]);
    ParsedSpansChained(text, t);
    RenderableKeepsAll(p, |text|);
    SortByStartIdentity(p);
    assert ValidMentions(text, p) == p;
    assert NoneHidden(p, [t]) by {
      forall i | 0 <= i < |p| ensures !ShouldHide([t], p[i].data.trigger) {
        assert FindTrigger([t], p[i].data.trigger) == Some(t);
      }
    }
    FragmentsReassemble(text, p, 0, [t]);
  }

  lemma {:induction false} RenderableKeepsAll(ms: seq<MentionRange>, len: nat)
    requires AllRenderable(ms, len)
    ensures Renderable(ms, len) == ms
  {
    if ms != [] {
      assert AllRenderable(ms[1..], len) by {
        forall i | 0 <= i < |ms[1..]| ensures IsRenderable(ms[1..][i], len) {
          assert ms[1..][i] == ms[i + 1];
        }
      }
      RenderableKeepsAll(ms[1..], len);
      assert IsRenderable(ms[0], len);
    }
  }

  // ---------------------------------------------------------------------
  // Rendering given spans

  /** No two renderable spans of the list overlap, whatever their order. */
  predicate Apart(ms: seq<MentionRange>, len: nat)
  {
    forall a, b :: 0 <= a < b < |ms| && IsRenderable(ms[a], len) && IsRenderable(ms[b], len) ==>
      ms[a].end <= ms[b].start || ms[b].end <= ms[a].start
  }

  /** No renderable span's symbol is configured to be hidden. */
  predicate NoneRenderableHidden(ms: seq<MentionRange>, len: nat, triggers: seq<MentionTrigger>)
  {
    forall a :: 0 <= a < |ms| && IsRenderable(ms[a], len) ==> !ShouldHide(triggers, ms[a].data.trigger)
  }

  /**
   * Spans given by the caller, in any order, show exactly the text when no
   * two renderable ones overlap and none of them hides its symbol: the
   * dropped spans leave no hole, and the sort puts the rest in a chain.
   */
  lemma GivenSpansReassemble(text: string, ms: seq<MentionRange>, triggers: seq<MentionTrigger>)
    requires Apart(ms, |text|)
    requires NoneRenderableHidden(ms, |text|, triggers)
    ensures var valid := ValidMentions(text, SelectMentions(Some(ms), text, triggers));
            && AllRenderable(valid, |text|)
            && Shown(FragmentsFrom(text, valid, 0, triggers)) == text
  {
    var v := ValidMentions(text, ms);
    ValidMentionsSpec(text, ms);
    assert MentionUtils.Disjoint(v) by {
      forall i, j | 0 <= i < j < |v| ensures v[i].end <= v[j].start {
        ValidPairApart(text, ms, i, j);
      }
    }
    forall i | 0 <= i < |v| ensures 0 <= v[i].start && !ShouldHide(triggers, v[i].data.trigger) {
      assert v[i] in v;
      var a :| 0 <= a < |ms| && ms[a] == v[i];
    }
    DisjointChained(v, 0);
    FragmentsReassemble(text, v, 0, triggers);
    assert text[0..] == text;
  }

  /** Two walked spans taken from well-apart given spans do not overlap, the earlier first. */
  lemma ValidPairApart(text: string, ms: seq<MentionRange>, i: nat, j: nat)
    requires Apart(ms, |text|)
    requires i < j < |ValidMentions(text, ms)|
    ensures ValidMentions(text, ms)[i].end <= ValidMentions(text, ms)[j].start
  {
    var v := ValidMentions(text, ms);
    ValidMentionsSpec(text, ms);
    var a, b := GivenIndices(text, ms, i, j);
    assert IsRenderable(ms[a], |text|) && IsRenderable(ms[b], |text|);
    assert v[i].start <= v[j].start;
  }

  /** Two positions of the walked spans come from two different positions of the given ones. */
  lemma GivenIndices(text: string, ms: seq<MentionRange>, i: nat, j: nat) returns (a: nat, b: nat)
    requires i < j < |ValidMentions(text, ms)|
    ensures a < |ms| && b < |ms| && a != b
    ensures ms[a] == ValidMentions(text, ms)[i] && ms[b] == ValidMentions(text, ms)[j]
  {
    var v := ValidMentions(text, ms);
    ValidMentionsSpec(text, ms);
    assert v[i] in v && v[j] in v;
    if v[i] == v[j] {
      TwiceCounted(v, i, j);
      assert multiset(Renderable(ms, |text|))[v[i]] == multiset(ms)[v[i]];
      a, b := TwiceAt(ms, v[i]);
    } else {
      a :| 0 <= a < |ms| && ms[a] == v[i];
      b :| 0 <= b < |ms| && ms[b] == v[j];
    }
  }

  /** An element at two positions is counted at least twice. */
  lemma TwiceCounted(s: seq<MentionRange>, i: nat, j: nat)
    requires i < j < |s| && s[i] == s[j]
    ensures multiset(s)[s[i]] >= 2
  {
    assert s == s[..j] + s[j..];
    assert s[i] in s[..j] && s[j..][0] == s[j];
    assert multiset(s)[s[i]] == multiset(s[..j])[s[i]] + multiset(s[j..])[s[i]];
  }

  /** An element counted at least twice sits at two positions. */
  lemma {:induction false} TwiceAt(s: seq<MentionRange>, x: MentionRange) returns (a: nat, b: nat)
    requires multiset(s)[x] >= 2
    ensures a < b < |s| && s[a] == x && s[b] == x
  {
    assert s == [s[0]] + s[1..];
    if s[0] == x {
      assert x in multiset(s[1..]);
      assert x in s[1..];
      var k :| 0 <= k < |s[1..]| && s[1..][k] == x;
      a, b := 0, k + 1;
    } else {
      assert multiset(s[1..])[x] == multiset(s)[x];
      var a', b' := TwiceAt(s[1..], x);
      a, b := a' + 1, b' + 1;
    }
  }
}
