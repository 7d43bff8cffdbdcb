/**
 * The mention session controller of `MentionProvider`, lifted out of React:
 * the trigger detector that runs on every text or selection change, the
 * splice that replaces the typed query by a chosen suggestion, and the
 * `inserting` guard that keeps the detector quiet while the host echoes the
 * spliced value back.
 */
module MentionProviderModel {
  import opened Wrappers
  import opened Types
  import opened Chars
  import MentionUtils
  import Ordering

  /** How far back from the cursor the detector looks for a trigger. */
  const LookbackLimit: nat := 50

  /** The best candidate so far: its symbol, its index in the lookback window, its query. */
  datatype Candidate = Candidate(trigger: string, index: nat, query: string)

  /** The half-open range `[start, end)` of the host text a mention will replace. */
  datatype TextRange = TextRange(start: nat, end: nat)

  /** The registered host input: its value as last registered. */
  datatype Host = Host(value: string)

  /** `Math.max(0, cursor - 50)` */
  function WindowStart(cursor: nat): (r: nat)
    ensures r <= cursor && cursor - r <= LookbackLimit
    ensures cursor < LookbackLimit ==> r == 0
    ensures cursor >= LookbackLimit ==> cursor - r == LookbackLimit
  {
    if cursor < LookbackLimit then 0 else cursor - LookbackLimit
  }

  /** `text.slice(Math.max(0, cursor - 50), cursor)` */
  function Lookback(text: string, cursor: nat): string
  {
    Slice(text, WindowStart(cursor), cursor)
  }

  /** Where `slice(…, cursor)` stops: the cursor, or the end of the text when the cursor lies past it. */
  function TextEnd(text: string, cursor: nat): nat
  {
    if cursor <= |text| then cursor else |text|
  }

  /** `text[i]`, which JavaScript reads as `undefined` outside the string. */
  function CharAt(text: string, i: int): (r: Option<char>)
    ensures r.Some? <==> 0 <= i < |text|
    ensures r.Some? ==> r.value == text[i]
  {
    if 0 <= i < |text| then Some(text[i]) else None
  }

  /** `realIdx === 0 || !prevChar || /[\s(]/.test(prevChar)` */
  predicate AtBoundary(text: string, realIdx: nat)
  {
    var prev := CharAt(text, realIdx - 1);
    realIdx == 0 || prev.None? || IsSpace(prev.value) || prev.value == '('
  }

  /** Inside the text the boundary test reads the character before the symbol. */
  lemma AtBoundaryChars(text: string, r: nat)
    requires r <= |text|
    ensures AtBoundary(text, r) <==> r == 0 || IsSpace(text[r - 1]) || text[r - 1] == '('
  {
  }

  /** `Math.max(0, wordGroups.length - 1)` */
  function AdditionalGroups(query: string): nat
  {
    if WordGroups(query) == 0 then 0 else WordGroups(query) - 1
  }

  /** The query may stay open: not too many word groups, and no line break. */
  predicate QueryAllowed(query: string, t: MentionTrigger)
  {
    AdditionalGroups(query) <= t.MaxSpaces() && '\n' !in query
  }

  /** What one trigger configuration proposes: the body of the `for` loop, lines 90-109. */
  function CandidateFor(text: string, cursor: nat, t: MentionTrigger): Option<Candidate>
  {
    CandidateAt(text, cursor, t, LastIndexOf(Lookback(text, cursor), t.trigger))
  }

  /** The rest of the loop body once `lastIdx` is known. */
  function CandidateAt(text: string, cursor: nat, t: MentionTrigger, lastIdx: int): Option<Candidate>
  {
    if lastIdx < 0 then None
    else
      var realIdx := WindowStart(cursor) + lastIdx;
      if !AtBoundary(text, realIdx) then None
      else
        var query := SliceFrom(Lookback(text, cursor), lastIdx + |t.trigger|);
        if QueryAllowed(query, t) then Some(Candidate(t.trigger, lastIdx, query)) else None
  }

  /** `if (!bestMatch || lastIdx > bestMatch.index) bestMatch = candidate` */
  function Better(best: Option<Candidate>, c: Option<Candidate>): Option<Candidate>
  {
    if c.Some? && (best.None? || c.value.index > best.value.index) then c else best
  }

  /** What each configuration proposes, in configuration order. */
  function Candidates(text: string, cursor: nat, triggers: seq<MentionTrigger>): (r: seq<Option<Candidate>>)
    ensures |r| == |triggers|
  {
    seq(|triggers|, i requires 0 <= i < |triggers| => CandidateFor(text, cursor, triggers[i]))
  }

  lemma CandidatesAt(text: string, cursor: nat, triggers: seq<MentionTrigger>)
    ensures forall i :: 0 <= i < |triggers| ==>
              Candidates(text, cursor, triggers)[i] == CandidateFor(text, cursor, triggers[i])
  {
  }

  /** The loop's left-to-right choice among the proposals. */
  function Pick(cands: seq<Option<Candidate>>): Option<Candidate>
  {
    if cands == [] then None else Better(Pick(cands[..|cands| - 1]), cands[|cands| - 1])
  }

  /** One more proposal: the choice over a longer prefix. */
  lemma PickPrefix(cands: seq<Option<Candidate>>, i: nat)
    requires i < |cands|
    ensures Pick(cands[..i + 1]) == Better(Pick(cands[..i]), cands[i])
  {
    assert cands[..i + 1][..i] == cands[..i];
  }

  /** The detector's verdict for a collapsed selection at `cursor`. */
  function Detect(text: string, cursor: nat, triggers: seq<MentionTrigger>): Option<Candidate>
  {
    Pick(Candidates(text, cursor, triggers))
  }

  /** The value `insertMention` hands to the host. */
  function Spliced(value: string, range: TextRange, trigger: string, name: string): string
  {
    Slice(value, 0, range.start) + trigger + name + " " + SliceFrom(value, range.end)
  }

  // ---------------------------------------------------------------------
  // The candidate of one trigger configuration

  /** Inside the window an occurrence in the lookback is an occurrence in the text. */
  lemma LookbackOccurs(text: string, cursor: nat, t: string, i: int)
    ensures OccursAt(Lookback(text, cursor), i, t) <==>
              if WindowStart(cursor) <= |text| then
                0 <= i && OccursAt(text, WindowStart(cursor) + i, t)
                && WindowStart(cursor) + i + |t| <= cursor
              else i == 0 && t == []
  {
    var ws := WindowStart(cursor);
    var lb := Lookback(text, cursor);
    if ws <= |text| {
      LookbackSlice(text, cursor);
      var te := TextEnd(text, cursor);
      assert lb == text[ws..te] && |lb| == te - ws && te <= |text|;
      if 0 <= i && i + |t| <= |lb| {
        var here := lb[i..i + |t|];
        var there := text[ws + i..ws + i + |t|];
        forall k | 0 <= k < |t| ensures here[k] == there[k] {
          assert lb[i + k] == text[ws + i + k];
        }
        assert here == there;
      }
    } else {
      assert lb == [];
    }
  }

  /** A window that starts inside the text is the text from its start up to `TextEnd`. */
  lemma LookbackSlice(text: string, cursor: nat)
    requires WindowStart(cursor) <= |text|
    ensures WindowStart(cursor) <= TextEnd(text, cursor)
    ensures Lookback(text, cursor) == text[WindowStart(cursor)..TextEnd(text, cursor)]
  {
  }

  /**
   * `c` is a candidate of `t` in the text before the cursor: a last
   * occurrence of the symbol inside the window `[max(0, cursor - 50), cursor)`,
   * at the start of the text or after whitespace or `(`, whose query is the
   * text from just after the symbol up to the cursor (or to the end of the
   * text, for a cursor past it), free of line breaks and
   * with at most the allowed number of extra word groups.
   */
  predicate IsCandidate(text: string, cursor: nat, t: MentionTrigger, c: Candidate)
  {
    var r := WindowStart(cursor) + c.index;
    && c.trigger == t.trigger
    && IsLastBefore(text, cursor, t.trigger, r)
    && AtBoundary(text, r)
    && c.query == text[r + |t.trigger|..TextEnd(text, cursor)]
    && QueryAllowed(c.query, t)
  }

  /** `t` occurs at `r`, ends by the cursor, and occurs nowhere later that also ends by it. */
  predicate IsLastBefore(text: string, cursor: nat, t: string, r: int)
  {
    && r + |t| <= cursor
    && OccursAt(text, r, t)
    && (forall j :: r < j && j + |t| <= cursor ==> !OccursAt(text, j, t))
  }

  /** Whatever one configuration proposes is a candidate in the sense above. */
  lemma CandidateSound(text: string, cursor: nat, t: MentionTrigger)
    requires WindowStart(cursor) <= |text|
    ensures CandidateFor(text, cursor, t).Some? ==> IsCandidate(text, cursor, t, CandidateFor(text, cursor, t).value)
  {
    var lb := Lookback(text, cursor);
    var lastIdx := LastIndexOf(lb, t.trigger);
    if lastIdx >= 0 {
      var q := SliceFrom(lb, lastIdx + |t.trigger|);
      CandidateAtUnfold(text, cursor, t, lastIdx, WindowStart(cursor) + lastIdx, q);
      if CandidateFor(text, cursor, t).Some? {
        CandidateParts(text, cursor, t, lastIdx, Candidate(t.trigger, lastIdx, q));
      }
    }
  }

  /** The facts the body of the `for` loop establishes make a candidate. */
  lemma CandidateParts(text: string, cursor: nat, t: MentionTrigger, lastIdx: int, c: Candidate)
    requires WindowStart(cursor) <= |text|
    requires lastIdx == LastIndexOf(Lookback(text, cursor), t.trigger) && lastIdx != -1
    requires c == Candidate(t.trigger, lastIdx, SliceFrom(Lookback(text, cursor), lastIdx + |t.trigger|))
    requires AtBoundary(text, WindowStart(cursor) + lastIdx) && QueryAllowed(c.query, t)
    ensures IsCandidate(text, cursor, t, c)
  {
    var r := WindowStart(cursor) + lastIdx;
    assert c.trigger == t.trigger && c.index == lastIdx;
    LastInWindow(text, cursor, t.trigger, lastIdx);
    QueryInWindow(text, cursor, lastIdx, r, |t.trigger|);
    CandidateShape(text, cursor, t, r, c);
  }

  lemma CandidateShape(text: string, cursor: nat, t: MentionTrigger, r: nat, c: Candidate)
    requires r == WindowStart(cursor) + c.index && c.trigger == t.trigger
    requires IsLastBefore(text, cursor, t.trigger, r) && AtBoundary(text, r)
    requires c.query == text[r + |t.trigger|..TextEnd(text, cursor)] && QueryAllowed(c.query, t)
    ensures IsCandidate(text, cursor, t, c)
  {
  }

  /** The last occurrence in the lookback is the last occurrence in the text before the cursor. */
  lemma LastInWindow(text: string, cursor: nat, t: string, lastIdx: int)
    requires WindowStart(cursor) <= |text|
    requires lastIdx == LastIndexOf(Lookback(text, cursor), t) && lastIdx != -1
    ensures IsLastBefore(text, cursor, t, WindowStart(cursor) + lastIdx)
  {
    var ws := WindowStart(cursor);
    LastIndexOfSpec(Lookback(text, cursor), t);
    LookbackOccurs(text, cursor, t, lastIdx);
    forall j | ws + lastIdx < j && j + |t| <= cursor ensures !OccursAt(text, j, t) {
      LookbackOccurs(text, cursor, t, j - ws);
    }
  }

  /** The lookback from `lastIdx + n` on is the text from the same position up to `TextEnd`. */
  lemma QueryInWindow(text: string, cursor: nat, lastIdx: nat, r: nat, n: nat)
    requires WindowStart(cursor) <= |text| && r == WindowStart(cursor) + lastIdx
    requires r + n <= TextEnd(text, cursor)
    ensures SliceFrom(Lookback(text, cursor), lastIdx + n) == text[r + n..TextEnd(text, cursor)]
  {
    LookbackSlice(text, cursor);
  }

  /**
   * Conversely, a last occurrence of the symbol in the window is proposed,
   * with the text from after it up to the cursor (or the end of the text)
   * as its query, exactly when it sits on a boundary and that query is allowed.
   */
  lemma CandidateComplete(text: string, cursor: nat, t: MentionTrigger, r: nat)
    requires WindowStart(cursor) <= r
    requires IsLastBefore(text, cursor, t.trigger, r)
    ensures var q := text[r + |t.trigger|..TextEnd(text, cursor)];
            CandidateFor(text, cursor, t)
            == if AtBoundary(text, r) && QueryAllowed(q, t)
               then Some(Candidate(t.trigger, r - WindowStart(cursor), q))
               else None
  {
    var ws := WindowStart(cursor);
    var lastIdx := r - ws;
    LastIndexInWindow(text, cursor, t.trigger, r);
    assert CandidateFor(text, cursor, t) == CandidateAt(text, cursor, t, lastIdx);
    CandidateAtLast(text, cursor, t, lastIdx, r);
  }

  /** The rest of the loop body at a known `lastIdx`, in terms of the text. */
  lemma CandidateAtLast(text: string, cursor: nat, t: MentionTrigger, lastIdx: nat, r: nat)
    requires WindowStart(cursor) <= |text| && r == WindowStart(cursor) + lastIdx
    requires r + |t.trigger| <= TextEnd(text, cursor)
    ensures var q := text[r + |t.trigger|..TextEnd(text, cursor)];
            CandidateAt(text, cursor, t, lastIdx)
            == if AtBoundary(text, r) && QueryAllowed(q, t) then Some(Candidate(t.trigger, lastIdx, q)) else None
  {
    QueryInWindow(text, cursor, lastIdx, r, |t.trigger|);
    CandidateAtUnfold(text, cursor, t, lastIdx, r, text[r + |t.trigger|..TextEnd(text, cursor)]);
  }

  lemma CandidateAtUnfold(text: string, cursor: nat, t: MentionTrigger, lastIdx: nat, r: nat, q: string)
    requires r == WindowStart(cursor) + lastIdx && SliceFrom(Lookback(text, cursor), lastIdx + |t.trigger|) == q
    ensures CandidateAt(text, cursor, t, lastIdx)
            == if AtBoundary(text, r) && QueryAllowed(q, t) then Some(Candidate(t.trigger, lastIdx, q)) else None
  {
  }

  /** A last occurrence in the text before the cursor and inside the window is where `lastIndexOf` looks. */
  lemma LastIndexInWindow(text: string, cursor: nat, t: string, r: nat)
    requires WindowStart(cursor) <= r
    requires IsLastBefore(text, cursor, t, r)
    ensures LastIndexOf(Lookback(text, cursor), t) == r - WindowStart(cursor)
  {
    var ws := WindowStart(cursor);
    var lastIdx := LastIndexOf(Lookback(text, cursor), t);
    LastIndexOfSpec(Lookback(text, cursor), t);
    LookbackOccurs(text, cursor, t, r - ws);
    if lastIdx > r - ws {
      LookbackOccurs(text, cursor, t, lastIdx);
    }
  }

  /** With no occurrence of the symbol in the window the configuration proposes nothing. */
  lemma CandidateAbsent(text: string, cursor: nat, t: MentionTrigger)
    requires WindowStart(cursor) <= |text|
    requires forall j :: WindowStart(cursor) <= j && j + |t.trigger| <= cursor ==> !OccursAt(text, j, t.trigger)
    ensures CandidateFor(text, cursor, t) == None
  {
    var lb := Lookback(text, cursor);
    var lastIdx := LastIndexOf(lb, t.trigger);
    LastIndexOfSpec(lb, t.trigger);
    if lastIdx != -1 {
      LookbackOccurs(text, cursor, t.trigger, lastIdx);
    }
  }

  /**
   * A cursor more than 50 characters past the end of the text leaves an
   * empty window: only an empty symbol is found there (`"".lastIndexOf("")`
   * is 0), with an empty query.
   */
  lemma BeyondText(text: string, cursor: nat, t: MentionTrigger)
    requires |text| < WindowStart(cursor)
    ensures CandidateFor(text, cursor, t) == if t.trigger == [] then Some(Candidate([], 0, [])) else None
  {
    var lb := Lookback(text, cursor);
    assert lb == [];
    LastIndexOfSpec(lb, t.trigger);
    if t.trigger == [] {
      assert OccursAt(lb, 0, t.trigger);
      assert CharAt(text, WindowStart(cursor) - 1).None?;
      assert WordGroups([]) == 0;
    }
  }

  /** Whatever the cursor, a candidate's symbol and query fit between its index and the cursor. */
  lemma CandidateWithinRange(text: string, cursor: nat, t: MentionTrigger)
    ensures CandidateFor(text, cursor, t).Some? ==>
              var c := CandidateFor(text, cursor, t).value;
              c.trigger == t.trigger
              && WindowStart(cursor) + c.index + |c.trigger| + |c.query| <= cursor
  {
    var ws := WindowStart(cursor);
    var lb := Lookback(text, cursor);
    assert |lb| <= cursor - ws;
  }

  // ---------------------------------------------------------------------
  // The choice among configurations

  /**
   * The choice keeps the proposal with the largest window index; among equal
   * indices the earliest proposal wins. Nothing is kept exactly when nothing
   * is proposed.
   */
  lemma {:induction false} PickChoice(cands: seq<Option<Candidate>>)
    ensures Pick(cands).None? <==> forall i :: 0 <= i < |cands| ==> cands[i].None?
    ensures Pick(cands).Some? ==> exists w :: ChosenAt(cands, w) && cands[w] == Pick(cands)
  {
    if cands != [] {
      var init := cands[..|cands| - 1];
      var last := cands[|cands| - 1];
      PickChoice(init);
      var prev := Pick(init);
      if prev.Some? {
        var w :| ChosenAt(init, w) && init[w] == prev;
        ChosenExtend(cands, w);
      } else if last.Some? {
        ChosenLast(cands);
      }
    }
  }

  /**
   * Proposal `w` has the largest window index, and every earlier proposal a
   * strictly smaller one.
   */
  predicate ChosenAt(cands: seq<Option<Candidate>>, w: int)
  {
    && 0 <= w < |cands| && cands[w].Some?
    && (forall i :: 0 <= i < w && cands[i].Some? ==> cands[i].value.index < cands[w].value.index)
    && (forall i :: w < i < |cands| && cands[i].Some? ==> cands[i].value.index <= cands[w].value.index)
  }

  /** A choice among all but the last proposal stays chosen unless the last one lies later. */
  lemma ChosenExtend(cands: seq<Option<Candidate>>, w: int)
    requires cands != [] && ChosenAt(cands[..|cands| - 1], w)
    ensures var last := cands[|cands| - 1];
            if last.Some? && last.value.index > cands[w].value.index
            then ChosenAt(cands, |cands| - 1) else ChosenAt(cands, w)
  {
    var init := cands[..|cands| - 1];
    assert forall i :: 0 <= i < |init| ==> init[i] == cands[i];
  }

  /** The only proposal, or one after nothing was proposed, is chosen. */
  lemma ChosenLast(cands: seq<Option<Candidate>>)
    requires cands != [] && cands[|cands| - 1].Some?
    requires forall i :: 0 <= i < |cands| - 1 ==> cands[i].None?
    ensures ChosenAt(cands, |cands| - 1)
  {
  }

  /**
   * The detector's verdict over all configurations: nothing exactly when no
   * configuration proposes anything, and otherwise the proposal of some
   * configuration `w` that is chosen among all proposals: its symbol sits
   * latest in the window, and it is the earliest configuration on a tie.
   */
  lemma DetectChoice(text: string, cursor: nat, triggers: seq<MentionTrigger>)
    ensures Detect(text, cursor, triggers).None? <==>
              forall i :: 0 <= i < |triggers| ==> CandidateFor(text, cursor, triggers[i]).None?
    ensures Detect(text, cursor, triggers).Some? ==>
              exists w :: 0 <= w < |triggers| && CandidateFor(text, cursor, triggers[w]) == Detect(text, cursor, triggers)
                          && ChosenAt(Candidates(text, cursor, triggers), w)
  {
    var cands := Candidates(text, cursor, triggers);
    PickChoice(cands);
    CandidatesAt(text, cursor, triggers);
    if Pick(cands).Some? {
      var w :| ChosenAt(cands, w) && cands[w] == Pick(cands);
      assert CandidateFor(text, cursor, triggers[w]) == Pick(cands);
    }
  }

  /** A detected match belongs to one of the configurations and fits before the cursor. */
  lemma DetectWithinRange(text: string, cursor: nat, triggers: seq<MentionTrigger>)
    ensures Detect(text, cursor, triggers).Some? ==>
              var c := Detect(text, cursor, triggers).value;
              (exists k :: 0 <= k < |triggers| && triggers[k].trigger == c.trigger)
              && WindowStart(cursor) + c.index + |c.trigger| + |c.query| <= cursor
  {
    DetectChoice(text, cursor, triggers);
    if Detect(text, cursor, triggers).Some? {
      var c := Detect(text, cursor, triggers).value;
      var w :| 0 <= w < |triggers| && CandidateFor(text, cursor, triggers[w]) == Some(c);
      CandidateWithinRange(text, cursor, triggers[w]);
    }
  }

  /**
   * With the window starting inside the text, a detected match is a
   * candidate of its configuration, and its symbol and query fill
   * `[index, cursor)` exactly, or up to the end of the text for a cursor past it.
   */
  lemma DetectFillsRange(text: string, cursor: nat, triggers: seq<MentionTrigger>)
    requires WindowStart(cursor) <= |text|
    ensures Detect(text, cursor, triggers).Some? ==>
              var c := Detect(text, cursor, triggers).value;
              (exists k :: 0 <= k < |triggers| && IsCandidate(text, cursor, triggers[k], c))
              && WindowStart(cursor) + c.index + |c.trigger| + |c.query| == TextEnd(text, cursor)
  {
    DetectChoice(text, cursor, triggers);
    if Detect(text, cursor, triggers).Some? {
      var c := Detect(text, cursor, triggers).value;
      var w :| 0 <= w < |triggers| && CandidateFor(text, cursor, triggers[w]) == Some(c);
      CandidateSound(text, cursor, triggers[w]);
    }
  }

  /** With an empty window the detector finds the empty symbol if one is configured, and nothing else. */
  lemma DetectBeyondText(text: string, cursor: nat, triggers: seq<MentionTrigger>)
    requires |text| < WindowStart(cursor)
    ensures Detect(text, cursor, triggers)
            == if exists k :: 0 <= k < |triggers| && triggers[k].trigger == []
               then Some(Candidate([], 0, [])) else None
  {
    DetectChoice(text, cursor, triggers);
    forall k | 0 <= k < |triggers| {
      BeyondText(text, cursor, triggers[k]);
    }
    if exists k :: 0 <= k < |triggers| && triggers[k].trigger == [] {
      var k :| 0 <= k < |triggers| && triggers[k].trigger == [];
      assert CandidateFor(text, cursor, triggers[k]).Some?;
    }
  }

  // ---------------------------------------------------------------------
  // Where the detector and the library's own expectations part ways

  /** The detector with two configurations. */
  lemma DetectTwo(text: string, cursor: nat, triggers: seq<MentionTrigger>)
    requires |triggers| == 2
    ensures Detect(text, cursor, triggers)
            == Better(Better(None, CandidateFor(text, cursor, triggers[0])), CandidateFor(text, cursor, triggers[1]))
  {
    var cands := Candidates(text, cursor, triggers);
    var first := cands[..1];
    assert first[..0] == [];
    assert Pick(first) == Better(Pick(first[..0]), first[0]);
  }

  /** The detector with one configuration. */
  lemma DetectOne(text: string, cursor: nat, triggers: seq<MentionTrigger>)
    requires |triggers| == 1
    ensures Detect(text, cursor, triggers) == Better(None, CandidateFor(text, cursor, triggers[0]))
  {
    var cands := Candidates(text, cursor, triggers);
    assert cands[..0] == [];
    assert Pick(cands) == Better(Pick(cands[..0]), cands[0]);
  }

  /** A one-character symbol that does not occur in the window is never proposed. */
  lemma AbsentSymbol(text: string, cursor: nat, t: MentionTrigger)
    requires cursor <= |text| && |t.trigger| == 1
    requires forall j :: 0 <= j < cursor ==> text[j] != t.trigger[0]
    ensures CandidateFor(text, cursor, t) == None
  {
    forall j | WindowStart(cursor) <= j && j + 1 <= cursor ensures !OccursAt(text, j, t.trigger) {
      assert text[j..j + 1] == [text[j]];
    }
    CandidateAbsent(text, cursor, t);
  }

  /** A one-character symbol at `r`, not repeated before the cursor, as `CandidateComplete` needs it. */
  lemma LastSymbol(text: string, cursor: nat, t: MentionTrigger, r: nat)
    requires cursor <= |text| && |t.trigger| == 1
    requires WindowStart(cursor) <= r < cursor && text[r] == t.trigger[0]
    requires forall j :: r < j < cursor ==> text[j] != t.trigger[0]
    ensures OccursAt(text, r, t.trigger)
    ensures forall j :: r < j && j + |t.trigger| <= cursor ==> !OccursAt(text, j, t.trigger)
  {
    assert text[r..r + 1] == [text[r]];
    forall j | r < j && j + 1 <= cursor ensures !OccursAt(text, j, t.trigger) {
      assert text[j..j + 1] == [text[j]];
    }
  }

  /** A word followed by one trailing space still counts as a single word group. */
  lemma TrailingSpaceOneGroup(w: string)
    requires w != [] && forall k :: 0 <= k < |w| ==> !IsSpace(w[k])
    ensures WordGroups(w + " ") == 1
  {
    RunCountSplit(w, " ", false);
    RunCountUniform(w, false);
    RunCountUniform(" ", true);
  }

  lemma TypescriptQueryAllowed(text: string, t: MentionTrigger)
    requires text == "test #typescript "
    ensures text[6..17] == "typescript "
    ensures QueryAllowed(text[6..17], t)
  {
    var query := text[6..17];
    forall k | 0 <= k < 11 ensures query[k] == "typescript "[k] {
      assert query[k] == text[k + 6];
    }
    assert query == "typescript" + " ";
    TrailingSpaceOneGroup("typescript");
  }

  lemma HashtagWithTrailingSpace(text: string)
    requires text == "test #typescript "
    ensures CandidateFor(text, 17, MentionTrigger(None, None, "#"))
            == Some(Candidate("#", 5, "typescript "))
  {
    var t := MentionTrigger(None, None, "#");
    TypescriptQueryAllowed(text, t);
    assert IsSpace(text[4]);
    LastSymbol(text, 17, t, 5);
    CandidateComplete(text, 17, t, 5);
  }

  /**
   * The query is trimmed only for counting word groups, so a trailing space
   * does not close it: "test #typescript " with the cursor at the end
   * still proposes `#` with the query "typescript ", where the library's
   * expectation is that nothing is active.
   */
  lemma TrailingSpaceKeepsTrigger(text: string, triggers: seq<MentionTrigger>)
    requires text == "test #typescript "
    requires triggers == [MentionTrigger(None, None, "@"), MentionTrigger(None, None, "#")]
    ensures Detect(text, 17, triggers) == Some(Candidate("#", 5, "typescript "))
  {
    AbsentSymbol(text, 17, triggers[0]);
    HashtagWithTrailingSpace(text);
    DetectTwo(text, 17, triggers);
  }

  lemma JaneQueryAllowed(text: string, t: MentionTrigger)
    requires text == "Hello @Jane." && t.MaxSpaces() == 1
    ensures text[7..12] == "Jane."
    ensures QueryAllowed(text[7..12], t)
  {
    var query := text[7..12];
    forall k | 0 <= k < 5 ensures query[k] == "Jane."[k] {
      assert query[k] == text[k + 7];
    }
    RunCountUniform(query, false);
  }

  lemma MentionWithFullStop(text: string)
    requires text == "Hello @Jane."
    ensures CandidateFor(text, 12, MentionTrigger(Some(1), None, "@"))
            == Some(Candidate("@", 6, "Jane."))
  {
    var t := MentionTrigger(Some(1), None, "@");
    JaneQueryAllowed(text, t);
    assert IsSpace(text[5]);
    LastSymbol(text, 12, t, 6);
    CandidateComplete(text, 12, t, 6);
  }

  /**
   * The detector never rejects punctuation: "Hello @Jane." with the cursor
   * after the full stop proposes `@` with the query "Jane.".
   */
  lemma PunctuationStaysInQuery(text: string, triggers: seq<MentionTrigger>)
    requires text == "Hello @Jane."
    requires triggers == [MentionTrigger(Some(1), None, "@"), MentionTrigger(None, None, "#")]
    ensures Detect(text, 12, triggers) == Some(Candidate("@", 6, "Jane."))
  {
    MentionWithFullStop(text);
    assert forall j :: 0 <= j < 12 ==> text[j] != '#';
    AbsentSymbol(text, 12, triggers[1]);
    DetectTwo(text, 12, triggers);
  }

  /**
   * The detector demands a boundary before the symbol, the parser does not:
   * in "a@b" the parser finds the mention "@b" while the detector, with the
   * cursor at the end, proposes nothing.
   */
  lemma ParserIgnoresBoundary(text: string, triggers: seq<MentionTrigger>)
    requires text == "a@b"
    requires triggers == [MentionTrigger(None, None, "@")]
    ensures Detect(text, 3, triggers) == None
    ensures exists m :: m in MentionUtils.Parse(text, triggers) && m.start == 1 && m.end == 3
  {
    assert CandidateFor(text, 3, triggers[0]) == None by {
      assert text[1..2] == "@";
      assert !OccursAt(text, 2, "@") by {
        assert text[2..3] == [text[2]];
      }
      CandidateComplete(text, 3, triggers[0], 1);
    }
    DetectOne(text, 3, triggers);
    var t := triggers[0];
    assert !MentionUtils.MatchAt(text, 0, "@");
    assert MentionUtils.MatchAt(text, 1, "@");
    var m := MentionUtils.SpanAt(text, t, 1);
    assert MentionUtils.Scan(text, t, 0) == MentionUtils.Scan(text, t, 1);
    assert MentionUtils.Scan(text, t, 1) == [m] + MentionUtils.Scan(text, t, m.end);
    MentionUtils.PooledMembers(text, triggers);
    Ordering.SortByStartMembers(MentionUtils.Pooled(text, triggers));
    assert m in MentionUtils.Parse(text, triggers);
  }

  // ---------------------------------------------------------------------
  // The splice

  /**
   * Inside the host value, the spliced text is the part before the range,
   * then the symbol, the name and one space, then the part after the range.
   */
  lemma SplicedLayout(value: string, range: TextRange, trigger: string, name: string)
    requires range.start <= range.end <= |value|
    ensures var v := Spliced(value, range, trigger, name);
            var mid := range.start + |trigger| + |name|;
            && |v| == |value| - (range.end - range.start) + |trigger| + |name| + 1
            && v[..range.start] == value[..range.start]
            && v[range.start..range.start + |trigger|] == trigger
            && v[range.start + |trigger|..mid] == name
            && v[mid] == ' '
            && v[mid + 1..] == value[range.end..]
  {
    var v := Spliced(value, range, trigger, name);
    var mid := range.start + |trigger| + |name|;
    assert v == value[..range.start] + trigger + name + [' '] + value[range.end..];
  }

  /**
   * A name made only of `[\w-]` characters, spliced in after a non-empty
   * symbol, is read back by the parser as exactly that name when no extra
   * word groups are allowed or nothing follows the range.
   */
  lemma SplicedNameParses(value: string, range: TextRange, t: MentionTrigger, name: string)
    requires range.start <= range.end <= |value|
    requires name != [] && forall k :: 0 <= k < |name| ==> IsNameChar(name[k])
    requires t.MaxSpaces() == 0 || range.end == |value|
    ensures var v := Spliced(value, range, t.trigger, name);
            && MentionUtils.MatchAt(v, range.start, t.trigger)
            && MentionUtils.SpanAt(v, t, range.start).data.name == name
            && MentionUtils.SpanAt(v, t, range.start).end == range.start + |t.trigger| + |name|
  {
    var v := Spliced(value, range, t.trigger, name);
    var mid := range.start + |t.trigger| + |name|;
    SplicedLayout(value, range, t.trigger, name);
    NameReadBack(v, t, range.start, name);
  }

  /** A symbol, then a `[\w-]` name, then a space that ends the capture, is read as that name. */
  lemma NameReadBack(v: string, t: MentionTrigger, p: nat, name: string)
    requires p + |t.trigger| + |name| < |v|
    requires v[p..p + |t.trigger|] == t.trigger
    requires v[p + |t.trigger|..p + |t.trigger| + |name|] == name
    requires name != [] && forall k :: 0 <= k < |name| ==> IsNameChar(name[k])
    requires v[p + |t.trigger| + |name|] == ' '
    requires t.MaxSpaces() == 0 || p + |t.trigger| + |name| + 1 == |v|
    ensures MentionUtils.MatchAt(v, p, t.trigger)
    ensures MentionUtils.SpanAt(v, t, p).data.name == name
    ensures MentionUtils.SpanAt(v, t, p).end == p + |t.trigger| + |name|
  {
    var i := p + |t.trigger|;
    var mid := i + |name|;
    forall k | i <= k < mid ensures IsNameChar(v[k]) {
      assert v[k] == v[i..mid][k - i];
    }
    assert v[i] == name[0];
    assert MentionUtils.MatchAt(v, p, t.trigger);
    WordRunEndOver(v, i, mid);
    GroupsEndAtSpace(v, mid, t.MaxSpaces());
    assert MentionUtils.NameEnd(v, i, t.MaxSpaces()) == mid;
  }

  /** No group is taken at a space unless more may be taken and something follows it. */
  lemma GroupsEndAtSpace(v: string, j: nat, n: nat)
    requires j < |v| && v[j] == ' '
    requires n == 0 || j + 1 == |v|
    ensures MentionUtils.GroupsEnd(v, j, n) == j
  {
    if n != 0 {
      assert SpaceRunEnd(v, j + 1) == |v|;
    }
  }

  lemma {:induction false} WordRunEndOver(s: string, i: nat, e: nat)
    requires i <= e < |s|
    requires forall k :: i <= k < e ==> IsNameChar(s[k])
    requires !IsNameChar(s[e])
    ensures WordRunEnd(s, i) == e
    decreases e - i
  {
    if i < e {
      WordRunEndOver(s, i + 1, e);
    }
  }

  /** A symbol that cannot run into a name: no `[\w-]`, no whitespace and no `(` in it. */
  predicate PlainSymbol(symbol: string)
  {
    symbol != [] && forall k :: 0 <= k < |symbol| ==> !IsNameChar(symbol[k]) && !IsSpace(symbol[k]) && symbol[k] != '('
  }

  /**
   * Spliced at a boundary, with a symbol that cannot run into a name, the
   * name is parsed back as a mention of its own: no earlier span reaches
   * into the inserted symbol.
   */
  lemma SplicedMentionParsed(value: string, range: TextRange, t: MentionTrigger, name: string)
    requires range.start <= range.end <= |value|
    requires name != [] && forall k :: 0 <= k < |name| ==> IsNameChar(name[k])
    requires t.MaxSpaces() == 0 || range.end == |value|
    requires PlainSymbol(t.trigger)
    requires AtBoundary(value, range.start)
    ensures var v := Spliced(value, range, t.trigger, name);
            exists m :: && m in MentionUtils.Parse(v, [t]) && m.start == range.start
                        && m.end == range.start + |t.trigger| + |name| && m.data.name == name
  {
    var v := Spliced(value, range, t.trigger, name);
    SplicedLayout(value, range, t.trigger, name);
    SplicedNameParses(value, range, t, name);
    ParsedAtSplice(value, v, t, range.start, name);
  }

  /** The reading of `SplicedMentionParsed` once the splice is laid out. */
  lemma ParsedAtSplice(value: string, v: string, t: MentionTrigger, p: nat, name: string)
    requires p <= |value| && p + |t.trigger| <= |v| && v[..p] == value[..p]
    requires v[p..p + |t.trigger|] == t.trigger
    requires PlainSymbol(t.trigger) && AtBoundary(value, p)
    requires MentionUtils.MatchAt(v, p, t.trigger)
    requires MentionUtils.SpanAt(v, t, p).data.name == name
    requires MentionUtils.SpanAt(v, t, p).end == p + |t.trigger| + |name|
    ensures exists m :: && m in MentionUtils.Parse(v, [t]) && m.start == p
                        && m.end == p + |t.trigger| + |name| && m.data.name == name
  {
    MentionUtils.ParseComplete(v, [t]);
    assert [t][0] == t;
    var m :| m in MentionUtils.Parse(v, [t]) && m.data.trigger == t.trigger && m.start <= p < m.end;
    ParsedSpan(v, t, m);
    SpanStartsAtSplice(value, v, t, m, p);
  }

  /** A span parsed for a single trigger is the greedy match at its start. */
  lemma ParsedSpan(s: string, t: MentionTrigger, m: MentionRange)
    requires m in MentionUtils.Parse(s, [t])
    ensures MentionUtils.IsMatchSpan(s, t, m) && m == MentionUtils.SpanAt(s, t, m.start)
  {
    MentionUtils.ParseSortedPermutation(s, [t]);
    assert m in MentionUtils.Scan(s, t, 0);
    MentionUtils.ScanSound(s, t, 0);
    MentionUtils.ScanStarts(s, t, 0);
  }

  /** A span of `v` that holds the inserted symbol's position starts there. */
  lemma SpanStartsAtSplice(value: string, v: string, t: MentionTrigger, m: MentionRange, p: nat)
    requires p <= |value| && p + |t.trigger| <= |v| && v[..p] == value[..p]
    requires v[p..p + |t.trigger|] == t.trigger
    requires PlainSymbol(t.trigger) && AtBoundary(value, p)
    requires MentionUtils.IsMatchSpan(v, t, m) && m.start <= p < m.end
    ensures m.start == p
  {
    // The symbol's characters, the capture's characters, and the ones on
    // either side of `p`: no span starting before `p` can cover it.
    var a := m.start + |t.trigger|;
    var c := v[a..m.end];
    forall j | m.start <= j < a ensures !IsSpace(v[j]) && v[j] != '(' {
      assert v[j] == v[m.start..a][j - m.start];
    }
    forall j | a <= j < m.end ensures IsNameChar(v[j]) || IsSpace(v[j]) {
      assert v[j] == c[j - a];
    }
    assert !IsNameChar(v[p]) && !IsSpace(v[p]) by {
      assert v[p] == v[p..p + |t.trigger|][0];
    }
    AtBoundaryChars(value, p);
    assert 0 < p ==> IsSpace(v[p - 1]) || v[p - 1] == '(' by {
      if 0 < p { assert v[p - 1] == value[..p][p - 1]; }
    }
  }

  /**
   * The splice does not always come back as the chosen name. With the symbol
   * `x`, which is itself a name character, and one extra group allowed,
   * "xab xj" with the cursor at the end proposes `x` at 4 with the query
   * "j"; choosing "John" gives "xab xJohn ", which parses as the single
   * mention "ab xJohn".
   */
  lemma SplicedNameAbsorbed(value: string, triggers: seq<MentionTrigger>)
    requires value == "xab xj" && triggers == [MentionTrigger(Some(1), None, "x")]
    ensures Detect(value, 6, triggers) == Some(Candidate("x", 4, "j"))
    ensures var v := Spliced(value, TextRange(4, 6), "x", "John");
            && v == "xab xJohn "
            && |MentionUtils.Parse(v, triggers)| == 1
            && MentionUtils.Parse(v, triggers)[0].start == 0
            && MentionUtils.Parse(v, triggers)[0].end == 9
            && MentionUtils.Parse(v, triggers)[0].data.name == "ab xJohn"
  {
    AbsorbedDetect(value, triggers);
    var v := Spliced(value, TextRange(4, 6), "x", "John");
    AbsorbedSplice(value, v);
    AbsorbedParse(v, triggers);
  }

  lemma AbsorbedDetect(value: string, triggers: seq<MentionTrigger>)
    requires value == "xab xj" && triggers == [MentionTrigger(Some(1), None, "x")]
    ensures Detect(value, 6, triggers) == Some(Candidate("x", 4, "j"))
  {
    var t := triggers[0];
    assert value[5..6] == "j";
    assert WordGroups("j") == 1;
    assert IsSpace(value[3]);
    LastSymbol(value, 6, t, 4);
    CandidateComplete(value, 6, t, 4);
    DetectOne(value, 6, triggers);
  }

  lemma AbsorbedSplice(value: string, v: string)
    requires value == "xab xj" && v == Spliced(value, TextRange(4, 6), "x", "John")
    ensures v == "xab xJohn "
  {
    assert Slice(value, 0, 4) == "xab ";
    assert SliceFrom(value, 6) == [];
  }

  lemma AbsorbedParse(v: string, triggers: seq<MentionTrigger>)
    requires v == "xab xJohn " && triggers == [MentionTrigger(Some(1), None, "x")]
    ensures |MentionUtils.Parse(v, triggers)| == 1
    ensures MentionUtils.Parse(v, triggers)[0].start == 0
    ensures MentionUtils.Parse(v, triggers)[0].end == 9
    ensures MentionUtils.Parse(v, triggers)[0].data.name == "ab xJohn"
  {
    var t := triggers[0];
    assert MentionUtils.MatchAt(v, 0, "x");
    AbsorbedRuns(v);
    assert MentionUtils.GroupsEnd(v, 9, 0) == 9;
    assert MentionUtils.GroupsEnd(v, 3, 1) == 9;
    var m := MentionUtils.SpanAt(v, t, 0);
    assert m.end == 9;
    assert m.data.name == v[1..9];
    assert v[1..9] == "ab xJohn";
    assert !MentionUtils.MatchAt(v, 9, "x");
    assert MentionUtils.Scan(v, t, 9) == [] by {
      assert MentionUtils.Scan(v, t, 9) == MentionUtils.Scan(v, t, 10);
    }
    assert MentionUtils.Scan(v, t, 0) == [m];
    assert triggers[..0] == [];
    assert MentionUtils.Pooled(v, triggers) == [m];
    assert Ordering.SortByStart([m]) == [m];
  }

  lemma AbsorbedRuns(v: string)
    requires v == "xab xJohn "
    ensures WordRunEnd(v, 1) == 3 && SpaceRunEnd(v, 3) == 4 && WordRunEnd(v, 4) == 9
  {
    assert !IsNameChar(v[3]) && IsSpace(v[3]) && !IsSpace(v[4]) && !IsNameChar(v[9]);
  }

  /** The `for (const t of triggers)` loop of `onInputStateChange`. */
  method BestMatch(text: string, cursor: nat, triggers: seq<MentionTrigger>) returns (best: Option<Candidate>)
    ensures best == Detect(text, cursor, triggers)
  {
    ghost var cands := Candidates(text, cursor, triggers);
    best := None;
    for i := 0 to |triggers|
      invariant best == Pick(cands[..i])
    {
      var candidate := CandidateFor(text, cursor, triggers[i]);
      PickPrefix(cands, i);
      CandidatesAt(text, cursor, triggers);
      ghost var before := best;
      if candidate.Some? && (best.None? || candidate.value.index > best.value.index) {
        best := candidate;
      }
      assert best == Better(before, candidate);
    }
    assert cands[..|triggers|] == cands;
  }

  // ---------------------------------------------------------------------
  // The controller

  class MentionProvider {
    const triggers: seq<MentionTrigger>
    var activeTrigger: Option<string>
    var currentQuery: string
    var targetRange: Option<TextRange>
    /** `inputRef.current` */
    var input: Option<Host>
    /** `insertingRef.current` */
    var inserting: bool
    /** Every value passed to the host's `onChange`, oldest first. */
    var pushed: seq<string>
    /** How many times the host's `focus` was called. */
    var focusRequests: nat

    /**
     * A live trigger always has a range to replace, long enough for the
     * symbol and the query, and its symbol is one of the configured ones.
     */
    ghost predicate Valid()
      reads this
    {
      activeTrigger.Some? ==>
        && targetRange.Some?
        && targetRange.value.start + |activeTrigger.value| + |currentQuery| <= targetRange.value.end
        && exists k :: 0 <= k < |triggers| && triggers[k].trigger == activeTrigger.value
    }

    /** `isMentioning: !!activeTrigger`; an empty symbol is falsy in JavaScript. */
    function IsMentioning(): (r: bool)
      reads this
      ensures r ==> activeTrigger.Some?
      ensures activeTrigger == Some("") ==> !r
      ensures activeTrigger.Some? && activeTrigger.value != "" ==> r
    {
      activeTrigger.Some? && activeTrigger.value != ""
    }

    /** `insertMention` gets past its guard. */
    predicate ReadyToInsert()
      reads this
    {
      input.Some? && targetRange.Some? && IsMentioning()
    }

    constructor(triggers: seq<MentionTrigger>)
      ensures Valid()
      ensures this.triggers == triggers
      ensures activeTrigger == None && currentQuery == "" && targetRange == None
      ensures input == None && !inserting && pushed == [] && focusRequests == 0
    {
      this.triggers := triggers;
      activeTrigger := None;
      currentQuery := "";
      targetRange := None;
      input := None;
      inserting := false;
      pushed := [];
      focusRequests := 0;
    }

    /** `registerInput`: the host replaces any earlier one. */
    method RegisterInput(host: Host)
      requires Valid()
      modifies this
      ensures Valid()
      ensures input == Some(host)
      ensures activeTrigger == old(activeTrigger) && currentQuery == old(currentQuery)
      ensures targetRange == old(targetRange) && inserting == old(inserting)
      ensures pushed == old(pushed) && focusRequests == old(focusRequests)
    {
      input := Some(host);
    }

    /** `onInputStateChange(text, selection)` */
    method OnInputStateChange(text: string, selStart: nat, selEnd: nat)
      requires Valid()
      modifies this
      ensures Valid()
      ensures old(inserting) ==> unchanged(this)
      ensures !old(inserting) && selStart != selEnd ==>
                activeTrigger == None && currentQuery == old(currentQuery)
                && targetRange == old(targetRange)
      ensures !old(inserting) && selStart == selEnd ==>
                match Detect(text, selStart, triggers)
                case Some(c) =>
                  && activeTrigger == Some(c.trigger) && currentQuery == c.query
                  && targetRange == Some(TextRange(WindowStart(selStart) + c.index, selStart))
                case None =>
                  activeTrigger == None && targetRange == None && currentQuery == old(currentQuery)
      ensures input == old(input) && inserting == old(inserting)
      ensures pushed == old(pushed) && focusRequests == old(focusRequests)
    {
      if inserting {
        return;
      }
      if selStart != selEnd {
        activeTrigger := None;
        return;
      }
      var cursor := selStart;
      var best := BestMatch(text, cursor, triggers);
      DetectWithinRange(text, cursor, triggers);
      ApplyBestMatch(best, cursor);
    }

    /** The `if (bestMatch) … else …` tail of `onInputStateChange`. */
    method ApplyBestMatch(best: Option<Candidate>, cursor: nat)
      requires best.Some? ==>
                 (exists k :: 0 <= k < |triggers| && triggers[k].trigger == best.value.trigger)
                 && WindowStart(cursor) + best.value.index + |best.value.trigger| + |best.value.query| <= cursor
      modifies this
      ensures Valid()
      ensures match best
                case Some(c) =>
                  && activeTrigger == Some(c.trigger) && currentQuery == c.query
                  && targetRange == Some(TextRange(WindowStart(cursor) + c.index, cursor))
                case None =>
                  activeTrigger == None && targetRange == None && currentQuery == old(currentQuery)
      ensures input == old(input) && inserting == old(inserting)
      ensures pushed == old(pushed) && focusRequests == old(focusRequests)
    {
      if best.Some? {
        activeTrigger := Some(best.value.trigger);
        currentQuery := best.value.query;
        targetRange := Some(TextRange(WindowStart(cursor) + best.value.index, cursor));
      } else {
        activeTrigger := None;
        targetRange := None;
      }
    }

    /** `insertMention(suggestion)` */
    method InsertMention(suggestion: MentionSuggestion)
      requires Valid()
      modifies this
      ensures Valid()
      ensures !old(ReadyToInsert()) ==> unchanged(this)
      ensures old(ReadyToInsert()) ==>
                && pushed == old(pushed) + [Spliced(old(input).value.value, old(targetRange).value,
                                                    old(activeTrigger).value, suggestion.name)]
                && activeTrigger == None && targetRange == None && currentQuery == ""
                && inserting && focusRequests == old(focusRequests) + 1 && input == old(input)
    {
      if !ReadyToInsert() {
        return;
      }
      var range := targetRange.value;
      var value := input.value.value;
      var before := Slice(value, 0, range.start);
      var after := SliceFrom(value, range.end);
      var inserted := activeTrigger.value + suggestion.name + " ";
      var newValue := before + inserted + after;
      assert newValue == Spliced(value, range, activeTrigger.value, suggestion.name);
      inserting := true;
      activeTrigger := None;
      targetRange := None;
      currentQuery := "";
      pushed := pushed + [newValue];
      focusRequests := focusRequests + 1;
    }

    /** The deferred `requestAnimationFrame` callback: it only lowers the guard. */
    method Tick()
      requires Valid()
      modifies this
      ensures Valid()
      ensures !inserting
      ensures activeTrigger == old(activeTrigger) && currentQuery == old(currentQuery)
      ensures targetRange == old(targetRange) && input == old(input)
      ensures pushed == old(pushed) && focusRequests == old(focusRequests)
    {
      inserting := false;
    }
  }

  // ---------------------------------------------------------------------
  // A session as a host drives it

  lemma TypedQueryDetected(text: string, triggers: seq<MentionTrigger>)
    requires text == "@j" && triggers == [MentionTrigger(None, None, "@")]
    ensures Detect(text, 2, triggers) == Some(Candidate("@", 0, "j"))
  {
    var t := triggers[0];
    assert text[1..2] == "j";
    assert WordGroups("j") == 1;
    LastSymbol(text, 2, t, 0);
    CandidateComplete(text, 2, t, 0);
    DetectOne(text, 2, triggers);
  }

  /**
   * Typing "@j" opens a session; choosing "John" hands "@John " to the host
   * once and closes the session; the host's echo of that value is ignored
   * until the deferred tick lowers the guard.
   */
  method PickSuggestionAfterTyping() returns (sent: seq<string>, activeAfterEcho: Option<string>,
                                             guardedAfterTick: bool)
    ensures sent == ["@John "]
    ensures activeAfterEcho == None
    ensures !guardedAfterTick
  {
    var triggers := [MentionTrigger(None, None, "@")];
    var provider := new MentionProvider(triggers);
    provider.RegisterInput(Host("@j"));
    TypedQueryDetected("@j", triggers);
    provider.OnInputStateChange("@j", 2, 2);
    assert provider.activeTrigger == Some("@") && provider.targetRange == Some(TextRange(0, 2));
    provider.InsertMention(MentionSuggestion(None, None, "1", "John", None, "@"));
    assert Spliced("@j", TextRange(0, 2), "@", "John") == "@John ";
    provider.OnInputStateChange("@John ", 6, 6);
    activeAfterEcho := provider.activeTrigger;
    provider.Tick();
    guardedAfterTick := provider.inserting;
    sent := provider.pushed;
  }
}
