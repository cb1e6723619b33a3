# ansi_up 1.1.3 in Dafny

A model of `ansi_up.js` 1.1.3. It turns text with ANSI SGR escape sequences
(`ESC [ codes m`) into HTML spans whose classes name the colours and
decorations in force. The model covers the following parts:

- **`Ansi_Up` object** (`Engine.AnsiUp`).
  - Five fields: `fg`, `bg`, `bright_fg`, `bright_bg` and `styles`.
  - The methods that update them in place: the constructor, `add_style`,
    `remove_style`, the SGR dispatch and `process_chunk`.
  - `ansi_to_html`, which splits the text on ESC `[` and runs every later
    piece through `process_chunk`.
  - Each method is proved to agree with a pure function of the state
    before it.
- **Specification functions**, which carry the properties.
  - `StyleList`: the `splice`-inside-`some` removal, as `RemoveSkip`.
  - `Sgr`: one SGR code as `Step`, the class list and the span.
  - `ChunkParser`: the regex `/([\d;]*)m([\s\S]*)/` and the whole chunk.
  - `Chunker`: the split on ESC `[` and the threading of state through the
    chunks.
- **`escape_for_html` and `linkify`** (`Html`). They are pure functions,
  because neither reads nor writes the object.
- **`Strings`**: `split` with a one-character separator, `join` and
  `parseInt` on digit tokens, written out.

Strings are `seq<char>`. The regex matches, `split` and `replace` calls are
written out as recursive functions that do what the JavaScript calls do on
the inputs that can reach them.

## Behaviour worth knowing

Each item is a fact about the code, and the model keeps it.

- **`add_style` does not de-duplicate.** It pushes unconditionally
  (`ansi_up.js:29`), so code 3 or 53 repeated leaves repeated classes; see
  `Engine.AnsiUp.AddStyle` and `Sgr.AddRemoveCodes`.
- **The decorations are not always mutually exclusive.** `remove_style`
  deletes with `splice` inside `Array.prototype.some` (`ansi_up.js:40-44`),
  which skips the entry that moves into the freed slot. So of two adjacent
  copies only the first is removed, and `ESC[21;21;4m` leaves both
  `double-underline` and `underline` set. See:
  - `StyleList.RemoveSkipLeavesKIff`;
  - `StyleList.RemoveSkipRun`;
  - `Sgr.DoubledDoubleUnderlineThenUnderline`;
  - `Sgr.ClearUnderlineLeavesOne`.

  Exclusion does hold when no two copies are adjacent: see
  `StyleList.RemoveSkipIsFilterIff`, `StyleList.RemoveFamily` and
  `Sgr.UnderlineSwitches`.
- **Class names.** Decorations are `console-style-*` (`ansi_up.js:122-205`)
  and colours are `console-color-<name>-fg|bg` (`ansi_up.js:16-18`).
  `ESC[1;4;32m` therefore gives
  `console-style-underline console-color-green-fg bright-fg`; see
  `Chunker.BoldUnderlineGreenClasses`.
- **`bright-bg` never appears.** `bright_bg` is only ever assigned `false`
  (`ansi_up.js:24, 112, 184, 211`), so the `bright-bg` marker of
  `ansi_up.js:224-226` is never pushed. `Sgr.StepsPreservesWellFormed`,
  `ChunkParser.ChunkPreservesWellFormed`, `Chunker.ThreadPreservesWellFormed`
  and `Chunker.ConvertPreservesWellFormed` carry the invariant from a fresh
  object through every call; `Engine.AnsiUp.constructor`,
  `Engine.AnsiUp.ProcessChunk` and `Engine.AnsiUp.AnsiToHtml` keep it; and
  `Chunker.NoBrightBackground` concludes, for any sequence of
  `ansi_to_html` calls from a fresh object, that the class list holds no
  `bright-bg`.
- **The SGR match is not anchored** (`ansi_up.js:94`). Characters in a chunk
  before the parameter run are silently dropped; see
  `ChunkParser.ChunkParts`.
- **Leading zeros.** `parseInt` reads `031` as 31 (`ansi_up.js:105`); see
  `Strings.ParseIntOfDigits` and `Chunker.LeadingZeroCode`.

## Model

| member | source | states |
|---|---|---|
| Engine.AnsiUp.constructor | ansi_up.js:20-26 | a new object has no colours, no bright flags and no styles |
| Engine.AnsiUp.AddStyle | ansi_up.js:28-31 | the class is appended at the end even when already present; nothing else changes |
| Engine.AnsiUp.RemoveStyle | ansi_up.js:40-44 | the in-place `splice` loop over the indices fixed at the start leaves exactly `RemoveSkip` of the old list |
| Engine.AnsiUp.RemoveStyles | ansi_up.js:35-38 | the array form removes each class in turn, giving `RemoveEach` of the old list |
| Engine.AnsiUp.ApplyCode | ansi_up.js:104-212 | one pass of the dispatch changes the five fields exactly as `Step` says |
| Engine.AnsiUp.ApplyCodes | ansi_up.js:104-213 | the codes are applied left to right, giving `Steps` of the old state |
| Engine.AnsiUp.ProcessChunk | ansi_up.js:86-232 | the returned text and the new fields are those of `Chunk` on the old state |
| Engine.AnsiUp.AnsiToHtml | ansi_up.js:65-84 | the returned HTML and the new fields are those of `Convert` on the old state |
| Strings.Join | ansi_up.js:231 | `join` starts with the first piece |
| Strings.SplitOn | ansi_up.js:101 | `split(';')` yields at least one piece; no piece holds the separator; every character comes from the input |
| Strings.JoinSplitOn | ansi_up.js:101 | joining the pieces with the separator gives the text back |
| Strings.SplitOnJoin | ansi_up.js:101 | splitting a join of separator-free pieces gives the pieces back |
| Strings.SplitOnAroundSep | ansi_up.js:101 | a separator splits the pieces of its two sides apart |
| Strings.ParseInt | ansi_up.js:105 | a token gives `NaN` (None) exactly when it is empty or does not start with a digit |
| Strings.ParseIntOfDecimal | ansi_up.js:105 | `parseInt` reads back the decimal notation of every natural number |
| Strings.ParseIntOfDigits | ansi_up.js:105 | `parseInt` of a non-empty digit string, leading zeros included, is its decimal value |
| StyleList.RemoveSkip | ansi_up.js:40-44 | removal never makes the list longer |
| StyleList.PendingSplice | ansi_up.js:41-42 | deleting a match at index `i` and moving on leaves the same result pending |
| StyleList.PendingKeep | ansi_up.js:40-41 | passing a non-matching entry leaves the same result pending |
| StyleList.PendingPastEnd | ansi_up.js:40 | once the index is past the end of the shrunk list, the list is the result |
| StyleList.Filter | ansi_up.js:40-44 | reference removal, by membership: a value is in the result exactly when it is in the list and is not `k` |
| StyleList.RemoveSkipOnlyRemovesK | ansi_up.js:40-44 | only copies of the class are removed: after dropping every copy, before and after agree |
| StyleList.RemoveSkipIsSubsequence | ansi_up.js:40-44 | the surviving entries keep their relative order |
| StyleList.RemoveSkipLeavesKIff | ansi_up.js:40-44 | the class is still present afterwards exactly when two copies of it were adjacent |
| StyleList.RemoveSkipIsFilterIff | ansi_up.js:40-44 | removal equals deleting every copy exactly when no two copies are adjacent |
| StyleList.NoPairRemovesAll | ansi_up.js:40-44 | without adjacent copies every copy is removed |
| StyleList.RemoveSkipRun | ansi_up.js:40-44 | in a run of `n` copies only every other one is removed; `n / 2` remain |
| StyleList.RemoveEach | ansi_up.js:35-38 | the array form never makes the list longer |
| StyleList.RemoveEachPair | ansi_up.js:35-38 | a two-class array removes the first class, then the second |
| StyleList.SeparatedRemoveKeepsNoPair | ansi_up.js:35-44 | when the two classes are never adjacent, removing the first cannot bring two copies of the second together |
| StyleList.RemoveFamily | ansi_up.js:35-44 | when the two classes are never adjacent, the array form removes both completely |
| Sgr.ColorClassName | ansi_up.js:16-18 | a colour class starts with `console-color-` and ends with `-fg` for the foreground, `-bg` for the background |
| Sgr.ClassName | ansi_up.js:122-205 | a decoration class starts with `console-style-` |
| Sgr.Step | ansi_up.js:104-212 | no code turns `bright_bg` on |
| Sgr.StepReset | ansi_up.js:107-113 | an empty or zero code gives the fresh state, whatever the state before |
| Sgr.FlagAndClearCodes | ansi_up.js:114-190 | 1 sets `bright_fg`, 2 and 22 clear it, 39 clears the foreground and 49 the background; nothing else changes |
| Sgr.Steps | ansi_up.js:104-213 | no code list turns `bright_bg` on |
| Sgr.ClassList | ansi_up.js:215-227 | the list holds the styles plus at most four more classes, and is empty exactly when there are no styles and no truthy colour |
| Sgr.Render | ansi_up.js:228-232 | the text comes back either as it is, or unchanged inside `<span class="...">` and `</span>` |
| Sgr.ColorNamesDistinct | ansi_up.js:14 | the eight colour names are pairwise different |
| Sgr.ColorClassNameInjective | ansi_up.js:16-18 | different colours or sides give different class names |
| Sgr.ColorClassNameParts | ansi_up.js:16-18 | the colour word sits between `console-color-` and the side suffix, whose middle letter is `f` or `b` |
| Sgr.ColorClassShape | ansi_up.js:16-18 | a colour class is longer than 14 characters, starts with `c` and holds no space |
| Sgr.ClassNameShape | ansi_up.js:122-205 | a decoration class is longer than 14 characters, starts with `c` and holds no space |
| Sgr.ClassNameInjective | ansi_up.js:122-205 | different decorations have different class names |
| Sgr.StepForeground | ansi_up.js:175-208 | a code keeps the foreground, clears it, or sets the colour class of its last digit |
| Sgr.StepBackground | ansi_up.js:181-211 | a code keeps the background, clears it, or sets the colour class of its last digit; it never sets `bright_bg` |
| Sgr.StepPreservesWellFormed | ansi_up.js:104-212 | one code keeps colours as colour classes of the right side and `bright_bg` off |
| Sgr.StepsPreservesWellFormed | ansi_up.js:104-213 | every code sequence keeps that invariant |
| Sgr.StepsOfThree | ansi_up.js:104 | unfolding step: three codes are applied in order |
| Sgr.StepsAppend | ansi_up.js:104-213 | applying two code lists in turn is applying their concatenation |
| Sgr.ResetForgetsHistory | ansi_up.js:107-113 | after a reset code (0 or empty) the state depends only on the codes after it |
| Sgr.ResetIdempotent | ansi_up.js:107-113 | two reset codes in a row equal one |
| Sgr.UnhandledCodesAreNoOps | ansi_up.js:135-212 | every code outside `Handled` leaves the state unchanged: 7, 8, 10-20, 26-28, 38, 48, 50-52, 54, 56-63, 66-89, 98, 99 and every code above 107 |
| Sgr.ExchangeFacts | ansi_up.js:123-134 | an exchanging code puts its class last; the partner survives exactly when two copies of it were adjacent |
| Sgr.ClearFacts | ansi_up.js:154-174 | a clearing code keeps each class exactly when adjacent copies were left; it keeps neither when the two are never adjacent |
| Sgr.UnderlineFamily | ansi_up.js:123-159 | 4 and 21 exchange underline and double underline; 24 clears both, under the same conditions |
| Sgr.BlinkFamily | ansi_up.js:127-165 | 5 and 6 exchange slow and fast blink; 25 clears both |
| Sgr.StrikeFamily | ansi_up.js:141-199 | 9 and 64 exchange strike and double strike |
| Sgr.StrikeClear | ansi_up.js:169-205 | 29 and 65 have the same effect and clear the strike family |
| Sgr.AddRemoveCodes | ansi_up.js:120-195 | 3 and 53 append even when the class is already set; 23 and 55 leave it exactly when adjacent copies were present |
| Sgr.UnderlineSwitches | ansi_up.js:123-150 | from a fresh object, 4 then 21 leaves only double underline, and 21 then 4 only underline |
| Sgr.DoubledDoubleUnderlineThenUnderline | ansi_up.js:123-150 | `21;21;4` leaves both double underline and underline |
| Sgr.ClearUnderlineLeavesOne | ansi_up.js:154-159 | 24 on double, single, double underline leaves one double underline |
| Sgr.ForegroundCode | ansi_up.js:175-208 | 30-37 and 90-97 set the foreground to colour `n % 10`; only 90-97 set the bright flag; the rest is unchanged; the colour follows the styles in the class list |
| Sgr.BackgroundCode | ansi_up.js:181-211 | 40-47 and 100-107 set the background to colour `n % 10` and clear its bright flag; the rest is unchanged |
| Sgr.RenderBareIff | ansi_up.js:228-232 | the text comes back without a span exactly when there is no colour and no style |
| Sgr.ClassListParts | ansi_up.js:215-227 | unfolding step: the class list is the style names in order, then the foreground and its marker, then the background and its marker |
| Sgr.StyleNamesAreNotMarkers | ansi_up.js:215 | no style entry of the class list is a bright marker |
| Sgr.ColourPartMarkers | ansi_up.js:216-227 | in a reachable state the colour part holds `bright-fg` only after a set bright foreground, and never `bright-bg` |
| Sgr.BrightMarkers | ansi_up.js:215-227 | in a reachable state `bright-bg` never appears, and `bright-fg` appears exactly when a foreground is set and bright |
| Sgr.ClassAttributeRoundTrip | ansi_up.js:231 | the `class` attribute splits on spaces back into the class list, in order |
| ChunkParser.Chunk | ansi_up.js:86-232 | a chunk comes back verbatim with the state unchanged, or a suffix of it is rendered in the new state |
| ChunkParser.ChunkPreservesWellFormed | ansi_up.js:86-232 | `process_chunk` keeps colours as colour classes and `bright_bg` off |
| ChunkParser.FirstIndex | ansi_up.js:94 | the first `m` is found, or there is none |
| ChunkParser.RunStart | ansi_up.js:94 | the `[\d;]` run before the `m` is taken as far left as it goes |
| ChunkParser.FindSgr | ansi_up.js:94-98 | there is a match exactly when the chunk holds an `m`; it uses the first `m` and the maximal run before it |
| ChunkParser.FindSgrIsLeftmost | ansi_up.js:94 | no match starts further left than the one found |
| ChunkParser.Tokens | ansi_up.js:101-105 | the parameter run always gives at least one code |
| ChunkParser.TokensAroundSep | ansi_up.js:101-105 | a `;` splits the codes of its two sides apart |
| ChunkParser.TokensOfNumber | ansi_up.js:101-105 | a number's decimal notation parses as that single code |
| ChunkParser.ChunkAtMatch | ansi_up.js:100-231 | unfolding step: with a match, the codes of the run are applied and the text after the `m` is rendered |
| ChunkParser.ChunkWithoutM | ansi_up.js:96-98 | a chunk without `m` comes back verbatim and changes nothing |
| ChunkParser.ChunkParts | ansi_up.js:94-101 | in `junk + codes + "m" + body`, only `codes` are applied and only `body` is emitted; the junk is lost |
| ChunkParser.TrailingSemicolonResets | ansi_up.js:101-113 | a trailing `;` ends with an empty code, which resets everything |
| ChunkParser.BareMResets | ansi_up.js:101-113 | a bare `m` resets everything |
| ChunkParser.DoubledSemicolonResets | ansi_up.js:101-113 | `;;` resets: the codes before it have no effect |
| Chunker.Convert | ansi_up.js:65-84 | the output starts with the text before the first ESC `[`, verbatim |
| Chunker.ThreadPreservesWellFormed | ansi_up.js:69-83 | running chunks in order keeps colours as colour classes and `bright_bg` off |
| Chunker.ConvertPreservesWellFormed | ansi_up.js:65-84 | `ansi_to_html` keeps colours as colour classes and `bright_bg` off |
| Chunker.NoBrightBackground | ansi_up.js:215-227 | after any sequence of `ansi_to_html` calls on a fresh object, `bright-bg` is not in the class list, and `bright-fg` is exactly when a bright foreground is set |
| Chunker.SplitCsi | ansi_up.js:66 | the split yields at least one piece; the first is a prefix of the text; no piece holds ESC `[` |
| Chunker.JoinSplitCsi | ansi_up.js:66 | joining the pieces with ESC `[` gives the text back |
| Chunker.SplitWithoutCsi | ansi_up.js:66 | text without ESC `[` is one piece |
| Chunker.SplitAroundCsi | ansi_up.js:66 | a piece, ESC `[` and more text split into that piece and the pieces of the rest |
| Chunker.ThreadSnoc | ansi_up.js:69-71 | unfolding step: one more chunk continues from the state the earlier ones leave |
| Chunker.ThreadStep | ansi_up.js:69-83 | one round of the chunk loop extends the output and the state by the next chunk |
| Chunker.ThreadAppend | ansi_up.js:69-83 | processing two runs of chunks in turn is processing them together |
| Chunker.ConvertWithoutCsi | ansi_up.js:65-84 | text without ESC `[` comes out unchanged, and the state is untouched |
| Chunker.OneChunk | ansi_up.js:65-84 | the lead comes out verbatim, then the chunk's `process_chunk` result |
| Chunker.SequenceChunkCsiFree | ansi_up.js:66 | parameters, `m` and text free of ESC `[` form a chunk free of ESC `[` |
| Chunker.OneSequence | ansi_up.js:65-101 | `lead ESC[codes m body` gives the lead, then the body rendered in the state after the codes |
| Chunker.RedCode | ansi_up.js:175-177 | `31` from a fresh object sets the red foreground and nothing else |
| Chunker.ZeroCode | ansi_up.js:107-113 | `0` resets any state |
| Chunker.LeadingZeroTokens | ansi_up.js:101-105 | `031` parses as the single code 31 |
| Chunker.LeadingZeroCode | ansi_up.js:104-177 | `031` from a fresh object sets the red foreground, as `31` does |
| Chunker.BoldUnderlineGreenTokens | ansi_up.js:101-105 | `1;4;32` parses as the codes 1, 4 and 32 |
| Chunker.BoldUnderlineGreenCodes | ansi_up.js:104-213 | `1;4;32` from a fresh object sets bright, underline and green |
| Chunker.BoldUnderlineGreenClasses | ansi_up.js:215-227 | that state's classes are the underline class, then green, then `bright-fg` |
| Chunker.RenderRed | ansi_up.js:228-231 | the red foreground renders as a single span with its class |
| Chunker.RedChunk | ansi_up.js:86-231 | chunk `31m...` from a fresh object gives a red span and leaves red set |
| Chunker.PlainChunk | ansi_up.js:86-231 | chunk `0m...` after red gives the bare text and resets |
| Chunker.TwoChunks | ansi_up.js:65-84 | two chunks are processed in order, the second from the state the first leaves |
| Chunker.RedThenReset | ansi_up.js:65-231 | `ESC[31m` red `ESC[0m` plain gives a red span around red, then plain, and ends reset |
| Html.EscapeChar | ansi_up.js:50-56 | each of the five special characters becomes an entity starting with `&`; every other character is kept |
| Html.EscapeForHtml | ansi_up.js:49-57 | escaping never shortens the text |
| Html.EscapedHasNoMarkup | ansi_up.js:49-57 | escaped text holds no `<`, `>`, `"` or `'` |
| Html.UnescapeChar | ansi_up.js:50-56 | decoding undoes the replacement of one character |
| Html.UnescapeEscape | ansi_up.js:49-57 | escaping loses nothing: decoding the entities gives the text back |
| Html.EscapeAppend | ansi_up.js:49-57 | escaping distributes over concatenation |
| Html.EscapeIdentityIff | ansi_up.js:49-57 | the text is unchanged exactly when it has no special character |
| Html.EscapeNotIdempotent | ansi_up.js:49-57 | escaping twice differs from once: `&` becomes `&amp;amp;` |
| Html.IsSpace | ansi_up.js:60 | space, tab, newline and carriage return are `\s`; no printable ASCII character is |
| Html.Anchor | ansi_up.js:61 | the anchor is twice the address plus 15 characters long |
| Html.AnchorParts | ansi_up.js:61 | the anchor is `<a href="`, the address, `">`, the address again and `</a>` |
| Html.NonSpaceRun | ansi_up.js:60 | the `[^\s]+` run never extends past the text |
| Html.NonSpaceRunIsMaximal | ansi_up.js:60 | the run holds no white space and stops only at white space or the end |
| Html.NonSpaceRunAll | ansi_up.js:60 | text without white space is one run |
| Html.UrlLength | ansi_up.js:60 | the address match never extends past the text |
| Html.UrlLengthMatches | ansi_up.js:60 | a match is an address and ends at white space or the end |
| Html.NoUrlPrefix | ansi_up.js:60 | with no match, no prefix of the text is an address |
| Html.Linkify | ansi_up.js:59-63 | linkifying never shortens the text |
| Html.LinkifyPlainStep | ansi_up.js:59-63 | unfolding step: where no address starts, the first character is kept |
| Html.LinkifyUrlStep | ansi_up.js:59-63 | unfolding step: where an address starts, it is replaced by its anchor and the scan goes on after it |
| Html.LinkifyGrowsAtUrl | ansi_up.js:60-62 | where an address starts, the text changes |
| Html.LinkifyKeepsHead | ansi_up.js:59-63 | where no address starts, the text is unchanged exactly when the rest is |
| Html.LinkifyIdentityIff | ansi_up.js:59-63 | the text is unchanged exactly when no address starts anywhere in it |
| Html.NonSpaceRunBeforeSpace | ansi_up.js:60 | text after white space does not change the run before it |
| Html.UrlLengthBeforeSpace | ansi_up.js:60 | text after white space does not change the address before it |
| Html.LinkifyAroundSpace | ansi_up.js:59-63 | addresses never span white space: each side of a white-space character is linkified on its own |
| Html.LinkifyUrl | ansi_up.js:59-63 | text that is one address becomes exactly one anchor around it |

## Left out

- The module wrapper and the exports (`ansi_up.js:235-264`) are not part of
  this model. The exported functions only create a fresh object and
  delegate, which is `Engine.AnsiUp.constructor` followed by the method.
  The `options` argument of the exported `ansi_to_html` is ignored by the
  code and is not modelled.
- JavaScript's regex engine, `split` and `replace` are not modelled as
  libraries. Each use is written out as a function:
  - `FindSgr` for the match at `ansi_up.js:94`;
  - `SplitCsi` for `split(/\033\[/)`;
  - `SplitOn` for `split(';')`;
  - `UrlLength` and `Linkify` for the global `replace`.

  The `m` flag of the regexes has no effect, since none uses `^` or `$`.
- `parseInt` is modelled only on the tokens that can reach it: strings of
  digits, possibly empty. Sign, leading blanks and the loss of precision
  on very long digit strings are left out. Every value above 107 is a
  no-op either way.
- `process_chunk` may return a string or a three-element array, and
  `ansi_to_html` flattens them with `reduce` before `join('')`. This is
  modelled as plain concatenation.
- `add_style` and `remove_style` return `this` for chaining. The methods
  return nothing and are called one after the other.
- `remove_style` dispatches on `Array.isArray`. The two cases are two
  methods: `RemoveStyle` for one class and `RemoveStyles` for an array.
- Decoration classes are a datatype whose names are given by `ClassName`.
  A class string the code never passes cannot be represented.
- JavaScript strings are UTF-16; the model uses sequences of Unicode
  scalar values. No character this code tests for (ESC, `[`, digits, `;`,
  `m`, the five HTML specials, `\s`) is a surrogate, so this matters
  nowhere.
- RemoveSkip: its own contract states only that the list does not grow.
  What it removes is stated by the `StyleList` lemmas in the table.
- RemoveEach: its own contract states only that the list does not grow.
  What it removes is stated by `RemoveEachPair` and `RemoveFamily`.
- EscapeForHtml: its own contract states only a length bound. The
  replacement itself is stated by `EscapeChar`, `UnescapeEscape` and
  `EscapeIdentityIff`.
- Linkify: its own contract states only a length bound. The replacement is
  stated by the `Linkify...` lemmas in the table.
- Tokens: its own contract states only that there is at least one code.
  The parsing is stated by `TokensAroundSep`, `TokensOfNumber` and the
  reset lemmas.
- NonSpaceRun: its own contract states only a bound. Maximality is
  `NonSpaceRunIsMaximal`.
- UrlLength: its own contract states only a bound. What it matches is
  `UrlLengthMatches` and `NoUrlPrefix`.
- Join: its own contract states only that the result starts with the first
  piece. The round trips `JoinSplitOn`, `SplitOnJoin`, `JoinSplitCsi` and
  `ClassAttributeRoundTrip` pin down the rest.
- ColorClassName: its own contract states the prefix and the side suffix;
  `ColorClassNameInjective` and `ColorClassShape` state the rest.
- ClassName: its own contract states the prefix; `ClassNameInjective`
  states that the names differ.
- Step: its own contract states only that `bright_bg` is never turned on.
  Each branch is stated by a lemma: `StepReset`, `FlagAndClearCodes`,
  `StepForeground`, `StepBackground`, `ForegroundCode`, `BackgroundCode`,
  the family lemmas, `AddRemoveCodes` and `UnhandledCodesAreNoOps`.
- Steps: its own contract states only the `bright_bg` bound; `StepsAppend`
  states the order, and `ResetIdempotent` and `ResetForgetsHistory` the
  resets.
- ClassList: its own contract states a size bound and when the list is
  empty; `ClassListParts` and `BrightMarkers` state its contents.
- Render: its own contract states that the text is kept, bare or inside a
  span; `RenderBareIff` states which, and `ClassAttributeRoundTrip` the
  class attribute.
- Chunk: its own contract states that the output is the chunk verbatim or a
  rendered suffix of it; `ChunkAtMatch`, `ChunkWithoutM` and `ChunkParts`
  state which suffix and which codes.
- Thread: it has no contract of its own and is defined by its body (the
  chunk loop of `ansi_to_html`, `ansi_up.js:69-83`). `ThreadSnoc`,
  `ThreadStep` and `ThreadAppend` state what each chunk adds and in which
  order, and `ThreadPreservesWellFormed` the invariant it keeps.
- Convert: its own contract states only that the lead comes first;
  `ConvertWithoutCsi`, `OneChunk`, `OneSequence` and `RedThenReset` state
  the rest.
- IsSpace: its own contract states the four common white-space characters
  and that no printable ASCII character is white space; the full set of
  ECMAScript `\s` characters is its body.
- Anchor: its own contract states only the length; `AnchorParts` states
  the layout.
