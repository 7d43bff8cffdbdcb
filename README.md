# react-native-docked-mentions, modelled in Dafny

`react-native-docked-mentions` adds @-mentions and #-tags to React Native
text inputs. This project models the library's text logic and proves
properties of the model. That logic has three parts.

- **The span parser** (`parseMentions`, `findMentionAtCursor`).
  - For each trigger configuration the parser runs the global expression
    `trigger([\w-]+(?:\s+[\w-]+){0,N})`, where N is
    `allowedSpacesCount ?? 0`.
  - It pools the matches of all configurations and sorts them by `start`.
  - `findMentionAtCursor` returns the first span that holds the cursor.
- **The session controller `MentionProvider`.**
  - On every text or selection change it looks back at most 50 characters
    from the cursor for the last occurrence of each trigger symbol.
  - It keeps the candidate whose symbol sits latest. That symbol must stand
    at the start of the text or after whitespace or `(`, and its query may
    not break the line or exceed the allowed word groups.
  - `insertMention` splices the chosen suggestion over the typed query.
  - An `inserting` guard keeps the controller quiet until the next frame.
- **The `MentionText` renderer.**
  - It uses the spans it is given, or else the parsed ones.
  - It drops the spans that do not fit the text and sorts the rest.
  - It walks the text with a `lastIndex` cursor and emits plain and mention
    segments.
  - When `hideTrigger` is set, the first occurrence of the symbol is removed
    from a mention's display text.

Modules:

- `Wrappers`: `Option`.
- `Types`: the records of `types.ts`.
- `Chars`: the JavaScript string primitives and character classes the code
  relies on: `[\w-]`, `\s`, `slice`, `indexOf`, `lastIndexOf`, `replace`,
  and the word-group count of `trim().split(/\s+/)`.
- `Ordering`: the stable sort by `start`.
- `MentionUtils`: the parser as an imperative scanner, plus the lookup.
- `MentionProviderModel`:
  - the detector, as pure functions plus the `for` loop that is proved
    against them;
  - the controller, as a class whose fields are the React state and refs.
- `MentionTextModel`: span selection, filter and sort, and the segment walk.

The regular expression is modelled as a left-to-right scanner:

- the symbol is a literal prefix;
- then comes a maximal `[\w-]` run;
- then at most N pairs of a maximal `\s` run and a maximal `[\w-]` run.

The two character classes are disjoint, so this greedy reading is the match
the expression finds. `regex.exec` resumes at the end of the previous match,
and resuming at that index is what the scanner does.

React state setters are modelled as immediate field updates.
`requestAnimationFrame` becomes an explicit `Tick()` method. The host input
is the value it registered. Every value handed to its `onChange` is appended
to `pushed`, and each call of its `focus` adds one to `focusRequests`.

In some places the code and the library's own tests disagree. The model
follows the code, and a lemma records what the code does:

- **The name runs across line breaks.** `\s` also matches line breaks, so
  with two extra groups allowed, `"@James Smith \n\nIt was great"` parses to
  the name `"James Smith \n\nIt"`. Lemma: `NameCrossesNewlines`.
- **A trailing space keeps the trigger open.** The query is trimmed only for
  counting, so `"test #typescript "` with the cursor at 17 keeps `#` active
  with the query `"typescript "`. Lemma: `TrailingSpaceKeepsTrigger`.
- **Punctuation stays in the query.** The detector never rejects
  punctuation, so `"Hello @Jane."` gives the query `"Jane."`. The test
  expects this, although its comments hesitate. Lemma:
  `PunctuationStaysInQuery`.
- **Only the detector checks the boundary.** The detector requires a
  boundary before the symbol and the parser does not. In `"a@b"` the parser
  finds `"@b"`, while the detector proposes nothing. Lemma:
  `ParserIgnoresBoundary`.
- **An inserted name can be swallowed.** The parser does not check the
  boundary and a symbol may itself be a name character, so the splice is not
  always read back as the chosen name. With the symbol `x` and one extra group,
  choosing "John" for the query `"j"` in `"xab xj"` gives `"xab xJohn "`,
  which parses as the single mention `"ab xJohn"`. Lemma:
  `SplicedNameAbsorbed`.

## Model

| member | source | states |
|---|---|---|
| Chars.Slice | packages/react-native-docked-mentions/src/mention-text.tsx:35 | `slice` clamps both ends to the length: the exact substring when both lie inside the string, the rest of the string when only the right end lies past it, and nothing for a reversed pair or a start at or past the end |
| Chars.LastIndexOfSpec | packages/react-native-docked-mentions/src/mention-provider.tsx:90 | `lastIndexOf` is -1 exactly when the pattern never occurs; otherwise it is an occurrence, and no occurrence lies after it |
| Chars.IndexOfSpec | packages/react-native-docked-mentions/src/mention-text.tsx:46 | `indexOf` is -1 exactly when the pattern never occurs; otherwise it is an occurrence, and no occurrence lies before it |
| Chars.RemoveFirstSpec | packages/react-native-docked-mentions/src/mention-text.tsx:46 | `replace(pat, "")` leaves a string with no occurrence unchanged, and otherwise cuts out exactly the first occurrence |
| Chars.WordRunEnd | packages/react-native-docked-mentions/src/mention-utils.ts:16 | the `[\w-]+` run from a position is maximal: every character in it is a name character, and the next one is not |
| Chars.SpaceRunEnd | packages/react-native-docked-mentions/src/mention-utils.ts:16 | the `\s+` run from a position is maximal: every character in it is whitespace, and the next one is not |
| Chars.RunCountSplit | packages/react-native-docked-mentions/src/mention-provider.tsx:100-103 | the word-group count adds up over a concatenation that joins no two runs of the same kind |
| Chars.RunCountUniform | packages/react-native-docked-mentions/src/mention-provider.tsx:100-103 | a text made of one character kind forms one group of that kind and none of the other |
| Ordering.SortByStartSortedPermutation | packages/react-native-docked-mentions/src/mention-utils.ts:39 | the sort by `start` yields an ascending permutation of its input |
| Ordering.SortByStartStable | packages/react-native-docked-mentions/src/mention-utils.ts:39 | the sort is stable: the ranges with any one `start` keep their input order |
| Ordering.SortByStartMembers | packages/react-native-docked-mentions/src/mention-utils.ts:39 | the sort keeps exactly the members of its input |
| Ordering.SortByStartNoDuplicates | packages/react-native-docked-mentions/src/mention-utils.ts:39 | sorting a list without repeats creates none |
| Ordering.WithStartMembers | packages/react-native-docked-mentions/src/mention-utils.ts:39 | the stability projection keeps exactly the ranges with the given `start` |
| MentionUtils.GroupsEnd | packages/react-native-docked-mentions/src/mention-utils.ts:16 | the greedy `(?:\s+[\w-]+){0,N}` ends at or after where it starts, and inside the text |
| MentionUtils.NameEnd | packages/react-native-docked-mentions/src/mention-utils.ts:16 | a capture that starts at a name character is non-empty and ends inside the text |
| MentionUtils.SpanAt | packages/react-native-docked-mentions/src/mention-utils.ts:22-35 | the span built at a match starts there and ends after the symbol and at least one name character |
| MentionUtils.ParseMentions | packages/react-native-docked-mentions/src/mention-utils.ts:3-40 | the trigger loop with its `exec` loop yields the pooled scans of all triggers, sorted |
| MentionUtils.FindMentionAtCursor | packages/react-native-docked-mentions/src/mention-utils.ts:42-49 | nothing exactly when no span holds the cursor (both ends inclusive); otherwise the first span in list order that holds it |
| MentionUtils.GroupsEndShape | packages/react-native-docked-mentions/src/mention-utils.ts:16 | the groups taken after a word use only name and whitespace characters, end on a name character, number at most N, and admit no further group |
| MentionUtils.NameEndShape | packages/react-native-docked-mentions/src/mention-utils.ts:16 | the capture starts and ends on a name character, holds only name and whitespace characters, has at most N whitespace runs, and is maximal |
| MentionUtils.SpanAtIsMatchSpan | packages/react-native-docked-mentions/src/mention-utils.ts:21-35 | each built span has the symbol at `start`, a maximal capture up to `end`, `id` equal to the whole match, `name` equal to the capture, and `trigger` equal to the configuration's symbol |
| MentionUtils.MatchSpanText | packages/react-native-docked-mentions/src/mention-utils.ts:22-35 | a span's text is its symbol followed by its name, `end` is `start` plus the lengths of the symbol and the name, and the name has the capture's shape |
| MentionUtils.ScanStarts | packages/react-native-docked-mentions/src/mention-utils.ts:21-36 | every span of a scan is the match found at its own start, at or after where the scan began |
| MentionUtils.ScanSound | packages/react-native-docked-mentions/src/mention-utils.ts:21-36 | every span of a scan is a well-formed, maximal match of its trigger |
| MentionUtils.ScanDisjoint | packages/react-native-docked-mentions/src/mention-utils.ts:20-36 | the spans of one trigger never overlap: each ends at or before the start of every later one |
| MentionUtils.ScanComplete | packages/react-native-docked-mentions/src/mention-utils.ts:15-21 | every position where the symbol is followed by a name character lies in one of the scan's spans |
| MentionUtils.ScanNoDuplicates | packages/react-native-docked-mentions/src/mention-utils.ts:20-36 | a scan never yields the same span twice |
| MentionUtils.PooledMembers | packages/react-native-docked-mentions/src/mention-utils.ts:9-37 | the pool holds exactly the spans of the per-trigger scans |
| MentionUtils.ParseSortedPermutation | packages/react-native-docked-mentions/src/mention-utils.ts:39 | the result is sorted by `start`, is a permutation of the pool, and holds exactly the spans of the per-trigger scans |
| MentionUtils.ParseSound | packages/react-native-docked-mentions/src/mention-utils.ts:14-35 | every span of the result is a well-formed, maximal match of one of the configurations |
| MentionUtils.ParseComplete | packages/react-native-docked-mentions/src/mention-utils.ts:15-21 | every occurrence of a symbol followed by a name character lies in a span of that symbol, whatever character precedes the symbol |
| MentionUtils.ParseEmpty | packages/react-native-docked-mentions/src/mention-utils.ts:7-21 | the result is empty exactly when no symbol is followed by a name character anywhere, which includes empty text |
| MentionUtils.PooledNoDuplicates | packages/react-native-docked-mentions/src/mention-utils.ts:9-37 | with distinct symbols, no span is pooled twice |
| MentionUtils.ParseSameTriggerDisjoint | packages/react-native-docked-mentions/src/mention-utils.ts:9-39 | with distinct symbols, two spans of the sorted result with the same symbol never overlap, the earlier first |
| MentionUtils.GreedyNameAcrossBlankLine | packages/react-native-docked-mentions/src/mention-utils.ts:16 | in `"@James Smith \n\nIt was great"` with two groups allowed, the capture after `@` ends at 17 and reads `"James Smith \n\nIt"` |
| MentionUtils.NameCrossesNewlines | packages/react-native-docked-mentions/src/__tests__/utils.test.ts:105-112 | the parser keeps exactly one span, 0 to 17, named `"James Smith \n\nIt"`, and none named `"James Smith"`; the test expects the latter name |
| MentionProviderModel.WindowStart | packages/react-native-docked-mentions/src/mention-provider.tsx:78-81 | the window starts at most 50 characters before the cursor: at 0 while the cursor is below 50, and exactly 50 before it from then on |
| MentionProviderModel.CharAt | packages/react-native-docked-mentions/src/mention-provider.tsx:93 | indexing reads a character exactly inside the string, and `undefined` elsewhere |
| MentionProviderModel.AtBoundaryChars | packages/react-native-docked-mentions/src/mention-provider.tsx:93-97 | inside the text, a symbol at `r` passes the boundary test exactly when `r` is 0 or the preceding character is whitespace or `(` |
| MentionProviderModel.Candidates | packages/react-native-docked-mentions/src/mention-provider.tsx:89 | there is one proposal per trigger configuration |
| MentionProviderModel.LookbackOccurs | packages/react-native-docked-mentions/src/mention-provider.tsx:78-81 | for any cursor, an occurrence in the lookback is exactly an occurrence in the text that starts inside the window and ends by the cursor; when the window starts past the end of the text the lookback is empty and only the empty pattern occurs, at 0 |
| MentionProviderModel.CandidateSound | packages/react-native-docked-mentions/src/mention-provider.tsx:89-109 | when the window starts inside the text, a proposal is the last occurrence of its symbol in the window before the cursor, at a boundary, with the query equal to the text from after the symbol up to the cursor or the end of the text, whichever comes first, free of line breaks, and within the allowed extra word groups |
| MentionProviderModel.CandidateComplete | packages/react-native-docked-mentions/src/mention-provider.tsx:89-109 | conversely, for any cursor and the last occurrence in the window, the configuration proposes it, with the query running up to the cursor or the end of the text, exactly when the boundary and the query tests pass, and otherwise proposes nothing |
| MentionProviderModel.LastIndexInWindow | packages/react-native-docked-mentions/src/mention-provider.tsx:90-92 | for any cursor, the last occurrence before the cursor inside the window is the one `lastIndexOf` finds in the lookback |
| MentionProviderModel.CandidateAbsent | packages/react-native-docked-mentions/src/mention-provider.tsx:90-91 | when the window starts inside the text, a symbol that does not occur in the window proposes nothing |
| MentionProviderModel.LookbackSlice | packages/react-native-docked-mentions/src/mention-provider.tsx:78-81 | when the window starts inside the text, the lookback is the text from the window start up to the cursor or the end of the text, whichever comes first |
| MentionProviderModel.BeyondText | packages/react-native-docked-mentions/src/mention-provider.tsx:78-109 | with the cursor more than 50 past the end of the text, the lookback is empty: an empty symbol is proposed at index 0 with an empty query, and any other symbol proposes nothing |
| MentionProviderModel.CandidateWithinRange | packages/react-native-docked-mentions/src/mention-provider.tsx:92-111 | for any cursor, a proposal carries its configuration's symbol, and the symbol and query fit between its index and the cursor |
| MentionProviderModel.PickChoice | packages/react-native-docked-mentions/src/mention-provider.tsx:110-112 | the choice is empty exactly when there are no proposals; otherwise it is a proposal with the largest index, and every earlier proposal has a strictly smaller one, so ties go to the earlier configuration |
| MentionProviderModel.DetectChoice | packages/react-native-docked-mentions/src/mention-provider.tsx:89-116 | the detector finds nothing exactly when no configuration proposes anything; otherwise its verdict is the proposal of a configuration chosen as above |
| MentionProviderModel.DetectWithinRange | packages/react-native-docked-mentions/src/mention-provider.tsx:110-123 | a detected match has a configured symbol and fits before the cursor |
| MentionProviderModel.DetectFillsRange | packages/react-native-docked-mentions/src/mention-provider.tsx:118-123 | when the window starts inside the text, a detected match is a candidate of its configuration, and its symbol and query fill the target range from its index up to the cursor, or up to the end of the text for a cursor past it |
| MentionProviderModel.DetectBeyondText | packages/react-native-docked-mentions/src/mention-provider.tsx:78-116 | with the cursor more than 50 past the end of the text, the detector yields the empty symbol at index 0 with an empty query when some configuration has an empty symbol, and nothing otherwise |
| MentionProviderModel.BestMatch | packages/react-native-docked-mentions/src/mention-provider.tsx:83-116 | the `for` loop with its strict-greater update computes the detector's verdict |
| MentionProviderModel.TrailingSpaceOneGroup | packages/react-native-docked-mentions/src/mention-provider.tsx:100-104 | a word followed by one space still counts as a single group after trimming |
| MentionProviderModel.HashtagWithTrailingSpace | packages/react-native-docked-mentions/src/mention-provider.tsx:98-109 | in `"test #typescript "` at cursor 17, `#` proposes index 5 with the query `"typescript "` |
| MentionProviderModel.TrailingSpaceKeepsTrigger | packages/react-native-docked-mentions/src/__tests__/mentions.test.tsx:148-158 | with the triggers `@` and `#`, the detector keeps `#` active with the query `"typescript "`; the test expects no active trigger |
| MentionProviderModel.MentionWithFullStop | packages/react-native-docked-mentions/src/mention-provider.tsx:98-109 | in `"Hello @Jane."` at cursor 12, `@` with one extra group proposes index 6 with the query `"Jane."` |
| MentionProviderModel.PunctuationStaysInQuery | packages/react-native-docked-mentions/src/__tests__/complex-scenarios.test.tsx:154-177 | the detector keeps `@` active with the query `"Jane."`, punctuation included |
| MentionProviderModel.ParserIgnoresBoundary | packages/react-native-docked-mentions/src/mention-provider.tsx:93-97 | in `"a@b"` the detector proposes nothing, because `a` precedes the symbol, while the parser yields a span from 1 to 3 |
| MentionProviderModel.SplicedLayout | packages/react-native-docked-mentions/src/mention-provider.tsx:140-143 | the new value is the text before the range, the symbol, the name, one space, and the text after the range, each at its expected offsets |
| MentionProviderModel.SplicedNameParses | packages/react-native-docked-mentions/src/mention-provider.tsx:140-143 | the match the parser finds at `range.start` of the new value reads exactly the spliced `[\w-]` name and ends right after it, when no extra groups are allowed or nothing follows the range |
| MentionProviderModel.NameReadBack | packages/react-native-docked-mentions/src/mention-utils.ts:16 | a symbol, a `[\w-]` name and a space that closes the capture parse as exactly that name |
| MentionProviderModel.SplicedMentionParsed | packages/react-native-docked-mentions/src/mention-provider.tsx:140-143 | when the range starts at a boundary and the symbol holds no name character, whitespace or `(`, the parsed spans of the new value include one from `range.start` that ends right after the name and is named exactly that name, under the same group condition |
| MentionProviderModel.SpanStartsAtSplice | packages/react-native-docked-mentions/src/mention-utils.ts:16 | a match that covers a symbol inserted at a boundary starts at that symbol, when the symbol holds no name character, whitespace or `(` |
| MentionProviderModel.SplicedNameAbsorbed | packages/react-native-docked-mentions/src/mention-provider.tsx:140-143 | with the symbol `x` and one extra group, `"xab xj"` at cursor 6 proposes index 4 with the query `"j"`, and choosing "John" gives `"xab xJohn "`, whose one parsed span runs from 0 to 9 with the name `"ab xJohn"` |
| MentionProviderModel.MentionProvider.IsMentioning | packages/react-native-docked-mentions/src/mention-provider.tsx:165 | `!!activeTrigger` is true for a present, non-empty symbol, and false both when there is none and when it is the empty string, which JavaScript counts as falsy |
| MentionProviderModel.MentionProvider.constructor | packages/react-native-docked-mentions/src/mention-provider.tsx:40-53 | the controller starts with no trigger, an empty query, no range, no host, the guard down, and nothing pushed |
| MentionProviderModel.MentionProvider.RegisterInput | packages/react-native-docked-mentions/src/mention-provider.tsx:55-64 | the host replaces any earlier one, nothing else changes, and the live-session invariant is kept |
| MentionProviderModel.MentionProvider.OnInputStateChange | packages/react-native-docked-mentions/src/mention-provider.tsx:66-130 | while the guard is up nothing changes; a non-collapsed selection clears only the trigger; otherwise a detection sets the trigger, the query and the range `[window start + index, cursor)`, a miss clears the trigger and the range and keeps the query; the live-session invariant is kept |
| MentionProviderModel.MentionProvider.ApplyBestMatch | packages/react-native-docked-mentions/src/mention-provider.tsx:118-127 | installs a match with its range, or clears the trigger and range while keeping the query, and keeps the invariant |
| MentionProviderModel.MentionProvider.InsertMention | packages/react-native-docked-mentions/src/mention-provider.tsx:132-159 | without a host, range or truthy trigger nothing changes; otherwise the spliced value is pushed exactly once, the session is cleared, the guard raised and focus requested once |
| MentionProviderModel.MentionProvider.Tick | packages/react-native-docked-mentions/src/mention-provider.tsx:152-154 | the deferred callback lowers the guard and changes nothing else, keeping the live-session invariant |
| MentionProviderModel.TypedQueryDetected | packages/react-native-docked-mentions/src/mention-provider.tsx:89-116 | typing `"@j"` with the cursor at 2 detects `@` at index 0 with the query `"j"` |
| MentionProviderModel.PickSuggestionAfterTyping | packages/react-native-docked-mentions/src/mention-provider.tsx:66-159 | typing `"@j"` and choosing "John" pushes `"@John "` once, the host's echo leaves no trigger active, and the tick lowers the guard |
| MentionTextModel.SelectMentions | packages/react-native-docked-mentions/src/mention-text.tsx:18-21 | given spans are used as they are, an empty list included; without them the spans are the parser's |
| MentionTextModel.Renderable | packages/react-native-docked-mentions/src/mention-text.tsx:27-28 | the filter keeps exactly the spans with `0 <= start < end` and `end` at most the text length, each as often as given |
| MentionTextModel.RenderableConcat | packages/react-native-docked-mentions/src/mention-text.tsx:27-28 | the filter keeps the order of its input: filtering a concatenation is the concatenation of the filtered parts |
| MentionTextModel.RenderableWithStart | packages/react-native-docked-mentions/src/mention-text.tsx:27-28 | among the spans with any one `start`, the filter keeps the renderable ones in their given order |
| MentionTextModel.FindTriggerSpec | packages/react-native-docked-mentions/src/mention-text.tsx:41-43 | `find` yields the first configuration with the span's symbol, and nothing when none has it |
| MentionTextModel.Fragments | packages/react-native-docked-mentions/src/mention-text.tsx:23-94 | the `forEach` walk with `lastIndex` emits the segments of the filtered, sorted spans |
| MentionTextModel.FragmentsStep | packages/react-native-docked-mentions/src/mention-text.tsx:31-83 | one turn of the walk emits a gap segment only when the span starts after `lastIndex`, then the span's segment, and moves on from its end |
| MentionTextModel.MentionText | packages/react-native-docked-mentions/src/mention-text.tsx:16-94 | the component renders `children` or `""` with the chosen spans |
| MentionTextModel.ValidMentionsSpec | packages/react-native-docked-mentions/src/mention-text.tsx:27-29 | the walked spans are exactly the renderable ones, each as often as given, in ascending `start` order; spans with the same `start` keep their order in the given list, renderable ones only |
| MentionTextModel.SortByStartIdentity | packages/react-native-docked-mentions/src/mention-text.tsx:29 | sorting spans already in `start` order changes nothing |
| MentionTextModel.EmptyTextRendersNothing | packages/react-native-docked-mentions/src/mention-text.tsx:27-91 | empty text keeps no span and renders no segment |
| MentionTextModel.ProvidedEmptyWinsOverParsing | packages/react-native-docked-mentions/src/mention-text.tsx:18-21 | an explicitly empty span list disables parsing: the text renders as one plain segment, or as nothing when it is empty |
| MentionTextModel.ShownConcat | packages/react-native-docked-mentions/src/mention-text.tsx:31-91 | the text shown by consecutive segment lists is the concatenation of what each list shows |
| MentionTextModel.MentionPartsConcat | packages/react-native-docked-mentions/src/mention-text.tsx:31-91 | the mention segments of consecutive segment lists are those of each list in turn |
| MentionTextModel.NoEmptyPlain | packages/react-native-docked-mentions/src/mention-text.tsx:32-38 | no plain segment is empty: adjacent spans and a span at the very end add none |
| MentionTextModel.MentionPartsAreSpans | packages/react-native-docked-mentions/src/mention-text.tsx:40-80 | the mention segments are the spans, one each and in order, each with the span's `data` and display text |
| MentionTextModel.FragmentsReassemble | packages/react-native-docked-mentions/src/mention-text.tsx:31-91 | for spans in order that do not overlap and whose symbol is not hidden, the segments show exactly the text from `lastIndex` on |
| MentionTextModel.ShownFirst | packages/react-native-docked-mentions/src/mention-text.tsx:32-47 | the first turn shows the gap before the first span and then that span's text |
| MentionTextModel.HiddenTriggerShowsName | packages/react-native-docked-mentions/src/mention-text.tsx:44-47 | with `hideTrigger` set, a span that reads as its symbol and name displays just the name |
| MentionTextModel.ShownTriggerKeepsText | packages/react-native-docked-mentions/src/mention-text.tsx:44-47 | without hiding, a mention displays the span's text unchanged |
| MentionTextModel.DisjointChained | packages/react-native-docked-mentions/src/mention-text.tsx:31-83 | spans that never overlap and start at or after a position chain from that position |
| MentionTextModel.ParsedSpansChained | packages/react-native-docked-mentions/src/mention-text.tsx:18-29 | the parsed spans of one trigger are renderable, in order, chained from 0, and carry that trigger |
| MentionTextModel.ParsedTextReassembles | packages/react-native-docked-mentions/src/mention-text.tsx:18-91 | text rendered with one non-hiding trigger and no given spans uses the parsed spans unchanged and shows exactly the original text |
| MentionTextModel.RenderableKeepsAll | packages/react-native-docked-mentions/src/mention-text.tsx:27-28 | the filter keeps a list of renderable spans as it is |
| MentionTextModel.GivenSpansReassemble | packages/react-native-docked-mentions/src/mention-text.tsx:18-91 | spans given by the caller, in any order, render to segments that show exactly the text, when no two renderable ones overlap and none of them hides its symbol |
| MentionTextModel.ValidPairApart | packages/react-native-docked-mentions/src/mention-text.tsx:27-29 | when no two renderable given spans overlap, each walked span ends at or before the start of every later one |
| MentionTextModel.GivenIndices | packages/react-native-docked-mentions/src/mention-text.tsx:27-29 | two positions of the walked spans come from two different positions of the given list, a repeated span included |

## Left out

- The escaping of regular-expression metacharacters in the symbol (`mention-utils.ts:10-13`) is not modelled: the symbol is matched as a literal prefix, which is what the escaping achieves.
- JavaScript strings are sequences of UTF-16 code units and the model's strings are sequences of Dafny characters, so offsets agree only for text without surrogate pairs.
- `\s` is the fixed ECMAScript set of whitespace and line terminators, and `\w` is ASCII, with no Unicode flag.
- `allowedSpacesCount` is a natural number: negative or fractional values, which turn into a malformed quantifier, are not modelled. Cursor and selection positions are natural numbers and span offsets are integers, not JavaScript numbers; the code never gives `slice` a negative argument, which JavaScript would count from the end of the string: the renderer's filter drops spans with a negative `start`, and the controller's window start and range start are at least 0.
- `MentionData`'s open index signature is a `map<string, string>` that the parser leaves empty, and a suggestion's optional fields other than `name` play no part.
- React scheduling is not modelled: state setters take effect at once, there are no stale closures, and the `fragments` memo's missing `triggers` dependency has no effect.
- `requestAnimationFrame` becomes the explicit `Tick()`, and the host's `onChange` and `focus` are recorded calls on the controller, not calls into a host.
- The `useMention` context check and its thrown error (`mention-provider.tsx:186-192`) are not modelled: there is no React context.
- Styling, JSX, accessibility props, keys and the `renderMention` / `onPressMention` callbacks (`mention-text.tsx:49-80`) are not modelled: a mention segment carries the `data` and display text that both render paths receive.
- The hooks `use-mention-input.ts` and `use-mention-state.ts`, the re-exports in `main.ts`, the example app and the scripts are not part of this model.
- MentionProviderModel.CandidateSound: stated when the 50-character window starts inside the text; for a cursor more than 50 past the end, `BeyondText` gives the exact proposal instead.
- MentionProviderModel.CandidateAbsent: stated when the window starts inside the text, as with `CandidateSound`; `BeyondText` covers the rest.
- MentionProviderModel.DetectFillsRange: stated when the window starts inside the text, as with `CandidateSound`; `DetectBeyondText` gives the exact verdict for a cursor more than 50 past the end.
- MentionProviderModel.SplicedNameParses: speaks of the match at `range.start`, not of the parsed spans, and only when no extra word groups are allowed or nothing follows the range, since otherwise the parser may take following words into the name. `SplicedMentionParsed` lifts it to the parsed spans for a boundary and a symbol without name characters; `SplicedNameAbsorbed` shows that without these conditions the name can be absorbed into an earlier span.
- MentionUtils.ParseSameTriggerDisjoint: stated for distinct symbols; two configurations with the same symbol produce the same spans twice.
- MentionTextModel.MentionText: the `triggers = []` default is an explicit argument.
