# Token Masq: a Dafny model of the token decoder page and the scramble transition

Token Masq is a one-page front-end. The user types a list of cl100k_base token ids. The
page turns the list into text with an external tokenizer and shows the result through a
"scramble" animation. The page has only this decode path. There is no encode path and
no classifier that chooses between encoding and decoding.

This project models the two pieces of logic the repository owns:

- `home.dfy`, module `Home` (`pages/index.tsx`). The page's four state cells form the
  class `Page`: `inputText`, `outputText`, `isDecoding` and `error`. Its methods are the
  submit handler `Submit`, the reset handler `Reset` and the input's change handler
  `Edit`. The token parser is a pure pipeline, modelled function by function:
  - `SplitOnWhitespace` is `split(/\s+/)`.
  - `KeepNonBlank` is `filter(t => t.trim())`.
  - `ParseInt` is JavaScript's `parseInt(_, 10)`.
  - `ParseAll` is the `map` that throws at the first NaN.

  The decoder is the tokenizer's `decode` followed by UTF-8 decoding. `Submit` takes it
  as a function parameter with three possible outcomes: text, an `Error` with a message,
  or a thrown value that is not an `Error`.
- `text-scramble.dfy`, module `TextScramble` (`components/text-scramble.tsx`). The
  component's state and refs form the class `Scrambler`, together with the host's
  animation-frame queue. The queue is the set `pending` of scheduled frame ids, and
  `frameRef` 0 stands for `null`. These operations are modelled:
  - `Start` is the effect body.
  - `Frame` is `update`, and its output loop is the method `Render`.
  - `Cleanup` is the cleanup function the effect returns.
  - `Retarget` is a prop change: the cleanup, then the body again.

  The cell table is built by the loop in `BuildCells` and specified by `Table`.
  Randomness enters as oracle values, each constrained to the values it can take:
  - `Draw` holds the start slot and the duration roll.
  - `Choice` is either "show the target" or a glyph index.

  The clock enters as the `now` parameter.

Two behaviours of the code worth noting:

- When a transition is interrupted, the new one starts from the last completed target
  (`previousTextRef`, lines 36 and 100). It does not start from what is on the display.
  `Retarget` and `FirstFrameShowsPrevious` state this.
- The parser does not demand that a word be a valid non-negative integer. It accepts
  what `parseInt` accepts: `"12abc"` reads as 12, `"0x1F"` as 0 and `"-7"` as -7. Only
  a word with no digit after an optional sign fails.

## Model

| member | source | states |
|---|---|---|
| Home.TrimSpec | pages/index.tsx:18 | `trim` leaves a word with no white space unchanged. It gives `""` exactly when the input is all white space. Otherwise the result neither starts nor ends with white space. |
| Home.SplitPieces | pages/index.tsx:25 | No piece produced by `split(/\s+/)` contains white space, and only the first and the last piece can be empty. |
| Home.KeepNonBlankOne | pages/index.tsx:26 | A single piece is kept exactly when its `trim` is non-empty. |
| Home.KeepNonBlankAppend | pages/index.tsx:26 | The filter of two lists joined is the filter of the first followed by the filter of the second. With `KeepNonBlankOne`, this means the pieces kept are the non-blank ones, in their order, each as often as it occurs. |
| Home.KeepNonBlankMembers | pages/index.tsx:26 | A piece is in the result exactly when it is in the input and its `trim` is non-empty. |
| Home.FragmentsAreWords | pages/index.tsx:24-26 | Every fragment that reaches the parser is non-empty and has no white space. |
| Home.FragmentsAreWordsOf | pages/index.tsx:24-26 | Splitting and then filtering gives exactly the whitespace-separated words, left to right, as defined by an independent recursive reference `Words`. |
| Home.FragmentsSeparate | pages/index.tsx:24-26 | A white-space character splits the fragments into those before it and those after it. Nothing is merged, dropped or reordered. |
| Home.FragmentsKeepCharacters | pages/index.tsx:24-26 | Joined together, the fragments are the input with only its white space removed. |
| Home.FragmentsOfJoinSpaced | pages/index.tsx:24-26 | Splitting returns every list of non-empty, white-space-free words from its space-joined text. |
| Home.BlankIffNoFragments | pages/index.tsx:18-26 | The blank guard `!inputText.trim()` holds exactly when the parser would see no fragment. |
| Home.LeadingDigits | pages/index.tsx:28 | The leading digit run ends at the first character that is not a digit. |
| Home.ParseIntDefined | pages/index.tsx:28-29 | `parseInt` gives NaN exactly when no digit follows the leading white space and the optional sign. |
| Home.ParseIntDigits | pages/index.tsx:28 | An optional sign followed by digits gives the signed value of those digits, whatever non-digit text follows. |
| Home.ParseIntDecimal | pages/index.tsx:28 | `parseInt` reads back the decimal numeral of every natural number, with or without a sign. |
| Home.ParseIntTrailingText | pages/index.tsx:28 | `"12abc"` parses to 12. |
| Home.ParseIntHexPrefix | pages/index.tsx:28 | `"0x1F"` parses to 0. |
| Home.ParseIntNegative | pages/index.tsx:28 | `"-7"` parses to -7. |
| Home.ParseIntNoDigit | pages/index.tsx:28-29 | `"abc"` parses to NaN. |
| Home.ParseAll | pages/index.tsx:27-33 | The map succeeds exactly when every fragment parses. On success it gives one value per fragment, in order, and each is that fragment's `parseInt` value. On failure the message is `Invalid token: ` followed by the first failing fragment from the left. |
| Home.ParseTokens | pages/index.tsx:24-33 | The parsed list has one id per fragment. Past the blank guard, a successful parse gives a non-empty list. |
| Home.ParseTokensRoundTrip | pages/index.tsx:24-33 | Writing ids as space-separated decimal numerals and parsing the text gives the same ids back, in order. |
| Home.ParseTokensRejects | pages/index.tsx:27-31 | Valid ids followed by a word with no leading digit fail with `Invalid token: ` and that word. |
| Home.Page.constructor | pages/index.tsx:8-11 | The page starts with empty input and output, not decoding, and with no error. |
| Home.Page.Edit | pages/index.tsx:79 | Typing replaces the input and changes nothing else. |
| Home.Page.Submit | pages/index.tsx:14-47 | The error is cleared first. Blank input changes nothing else. Otherwise `isDecoding` always ends false. A parse error sets the `Invalid token` message. A decoder failure sets its message, or `Failed to decode tokens` if the thrown value is not an `Error`. In both failure cases the output is unchanged. Only decoded text becomes the output. |
| Home.Page.Reset | pages/index.tsx:49-51 | The output and the input both become empty. Nothing else changes. |
| TextScramble.BuildCells | components/text-scramble.tsx:36-54 | The loop builds exactly the table `Table` for the previous text, the new text and the draws. |
| TextScramble.TableLinesUp | components/text-scramble.tsx:37-42 | The table has `max(previous.length, text.length)` cells. Joining the `to` fields gives the text, and joining the `from` fields gives the previous text. |
| TextScramble.SlotBounds | components/text-scramble.tsx:45-46 | A start slot is 0, or a natural number below `scrambleFactor * min(1, i/30)`, stated on integers. |
| TextScramble.DurationBounds | components/text-scramble.tsx:50 | A window lasts at least `2 * scrambleSpeed` and at most `scrambleSpeed * (2 + scrambleFactor)`. It reaches that upper bound only when the bound equals `2 * scrambleSpeed`. |
| TextScramble.TableTiming | components/text-scramble.tsx:44-51 | `start[i] = k * scrambleSpeed + 20 * i` for an allowed slot k. Cell 0 starts at 0, and `end[i] >= start[i] + 2 * scrambleSpeed`. |
| TextScramble.CellDeadline | components/text-scramble.tsx:44-51 | Every window of a table of n cells closes before `20n + scrambleSpeed * (2 * scrambleFactor + 2)`. |
| TextScramble.SettledByDeadline | components/text-scramble.tsx:44-51 | From that deadline on, every window of the table is closed. |
| TextScramble.PageTransitionSettles | pages/index.tsx:98-103 | With the page's settings (`scrambleSpeed` 60, `scrambleFactor` 24, the default glyph set), a transition of n cells is over after 20n + 3000 ms, and the glyph set is not empty. |
| TextScramble.GlyphInSet | components/text-scramble.tsx:82-83 | A drawn glyph index picks one character of the set. For an empty set, JavaScript appends the text `undefined`. |
| TextScramble.CellTextByWindow | components/text-scramble.tsx:69-91 | A cell shows `from` if `elapsed <= start` and `to` if `elapsed > end`. Inside its window it shows `' '` when both characters are spaces, and otherwise either `to` or one character of the set. |
| TextScramble.Render | components/text-scramble.tsx:63-92 | The loop's output is the cells' texts in index order. `complete` holds exactly when `elapsed > end` for every cell. |
| TextScramble.SettledShowsTargets | components/text-scramble.tsx:69-70 | Once every window has closed, the frame shows exactly the joined `to` fields. |
| TextScramble.UnstartedShowsSources | components/text-scramble.tsx:88-90 | Before any window opens, the frame shows exactly the joined `from` fields. |
| TextScramble.CompletedFrameShowsText | components/text-scramble.tsx:64-72 | The frame that completes a transition already shows the target text. Pinning the display to `text` at line 99 therefore changes nothing visible. |
| TextScramble.FirstFrameShowsPrevious | components/text-scramble.tsx:36-41 | A frame at elapsed time 0 or less shows the previous text. |
| TextScramble.Scrambler.AtMostOneFramePending | components/text-scramble.tsx:31-33 | While the state is valid, at most one frame is scheduled, and it is the one in `frameRef`. |
| TextScramble.Scrambler.SettlesByDeadline | components/text-scramble.tsx:96-101 | Every transition of the component completes: a frame past the deadline of its current table finds every window closed. |
| TextScramble.Scrambler.constructor | components/text-scramble.tsx:18-22 | The component mounts with an empty display, empty previous text, no frame and no cells. |
| TextScramble.Scrambler.Start | components/text-scramble.tsx:24-57 | An empty text sets the display to `''` and changes nothing else. Otherwise the pending frame is cancelled, the table is rebuilt from the previous text, the start time is recorded, and exactly one new frame is scheduled. `previousText` is not changed. |
| TextScramble.Scrambler.Frame | components/text-scramble.tsx:60-102 | If every window has closed, the display and `previousText` become the text and nothing is scheduled. Otherwise the display is the frame's output, `previousText` is unchanged, and exactly one new frame is scheduled. |
| TextScramble.Scrambler.Cleanup | components/text-scramble.tsx:106-110 | The pending frame is cancelled. Nothing else changes. |
| TextScramble.Scrambler.Retarget | components/text-scramble.tsx:24-111 | A prop change cancels the old frame before the table and start time are replaced. For an empty text, the display becomes `''`, no frame is pending, and the table, props, start time and frame ids are unchanged. Otherwise the new table is built from the last completed text, the display is unchanged until the next frame, and exactly one new frame is scheduled. `previousText` is unchanged in both cases. |

## Left out

- The tokenizer (`get_encoding`, `enc.decode`) and `TextDecoder` are foreign library and WASM calls. They are the `decode` parameter of `Submit`. The conversion of the ids to a `Uint32Array` (32-bit wrap-around of negative or large values) happens inside that parameter too.
- Home.ParseInt: JavaScript numbers lose precision above 2^53. The model keeps the exact unbounded integer.
- React rendering, JSX, `framer-motion`, `Head` and the 100 ms `setTimeout` that focuses the input after a reset are presentation and host timing.
- `Date.now`, `requestAnimationFrame` and `cancelAnimationFrame` are not real timers here. Time is the `now` parameter, and scheduled frames are the ids in `pending`.
- `Math.random`, the `Math.sin` chaos curve and the thresholds `0.7` and `progress * 0.8` (components/text-scramble.tsx:78-85) are floating point and random. A frame receives their outcome as a `Choice`: the target, or a glyph index. The model does not capture how likely each outcome is.
- TextScramble.Scrambler.Start: a window's end is a real number, not an IEEE double. `scrambleSpeed` and `scrambleFactor` are natural numbers, where the source accepts any number.
- Strings are sequences of characters, not UTF-16 code units. For text with characters outside the Basic Multilingual Plane, the source builds one cell per code unit and so splits surrogate pairs. The model does not capture that.
- components/animated-text.tsx is a cosmetic per-character delay and a 1000 ms reveal flag, and is not part of this model. next.config.js is build configuration.
