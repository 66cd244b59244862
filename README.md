# touch-to-read: a Dafny model of the reader's playback and input logic

touch-to-read is a web app for Rapid Serial Visual Presentation (RSVP). It shows a text one word at a time
while the reader holds a pointer down, at a speed set in words per minute (wpm). This project models its sequential core in
Dafny:

- **Text** (`text.dfy`): ECMAScript whitespace (the characters `\s` matches and `trim` removes), JavaScript's `split(/\s+/)`, the
  `filter(w => w.length > 0)` that follows it, and `trim()`. It proves that the words of a text are exactly its
  maximal non-whitespace runs, in order. Any decomposition of the text into words and whitespace gaps is the one
  `Words` finds, and every text has one.
- **Reader** (`reader.dfy`): the `RSVPReader` component's state (`words`, `currentIndex`, `isReading`, `wpm`)
  as a class. One firing of its `setInterval` timer is an explicit `Tick`, specified by the pure function `Step`.
  Lemmas about `Step` cover advancing, wrapping to index 0 at the end, being frozen while no interval is armed,
  and how long a hold lasts.
- **Dialog** (`dialog.dfy`): `TextInputDialog`'s state as a class, with `handleSubmit` and `handleSampleSelect`
  and the tab, text and open setters. Also the live word count, the sample tiles' unfiltered count and the
  "Start Reading" enable rule, related to what submitting actually does.
- **Keyboard** (`keyboard.dfy`): `handleKeyDown` of the shortcuts hook as a pure function from key, target and the
  supplied callbacks to the callback that fires and whether `preventDefault` is called.
- **Constants** (`constants.dfy`): the settings table, with the multipliers as exact reals, and lemmas that the
  bounds, steps, thresholds and multipliers are mutually consistent and match the reader's speed slider.

The end of the text is modelled as the code has it. At the last word a tick stops reading and puts the index
back to 0 (`components/rsvp-reader.tsx:42-45`). The code has no clamp at the last word, no finished state, no
play/pause/step/restart transports, no rewind and no per-word delays (the delay constants are unused), so none
is modelled.

The built-in sample text of the reader and the sample texts of the dialog are literals. They are abstracted as
arbitrary strings: the reader's constructor takes the text to segment, and `HandleSampleSelect` takes any sample.
The `onTextSubmit` callback is modelled as `HandleSubmit`'s result: `Some(t)` when it is called with `t`.

## Model

| member | source | states |
|---|---|---|
| `Text.TakeWord` | components/rsvp-reader.tsx:33 | the first piece of a split: the longest whitespace-free prefix, followed by whitespace or the end |
| `Text.SkipSpace` | components/rsvp-reader.tsx:33 | what follows a maximal leading whitespace run: a suffix, all whitespace removed before it, starting with a non-space |
| `Text.TrimEnd` | components/text-input-dialog.tsx:52 | a prefix with only whitespace after it and no trailing whitespace |
| `Text.Trim` | components/text-input-dialog.tsx:52 | JavaScript `trim()`: the text without its leading and its trailing whitespace run; `TrimMeaning` and `WordsOfTrim` state what that leaves |
| `Text.SplitRaw` | components/text-input-dialog.tsx:300 | `split(/\s+/)` yields at least one piece and no piece contains whitespace |
| `Text.NonEmpty` | components/rsvp-reader.tsx:34 | the filter keeps only non-empty entries, each taken from its input |
| `Text.NonEmptyCounts` | components/rsvp-reader.tsx:34 | the filter keeps each non-empty entry exactly as many times as it occurs in the input, and drops every empty one |
| `Text.NonEmptyConcat` | components/rsvp-reader.tsx:34 | the filter keeps the entries in their order: filtering a concatenation concatenates the filtered parts |
| `Text.Words` | components/rsvp-reader.tsx:32-34 | every word is non-empty and contains no whitespace |
| `Text.TrimMeaning` | components/text-input-dialog.tsx:52-53 | the result has no leading or trailing whitespace, and is empty exactly when the input is all whitespace |
| `Text.WordsOfSegmentation` | components/rsvp-reader.tsx:32-34 | any split of a text into non-empty whitespace-free words separated by non-empty whitespace runs is the one `Words` returns |
| `Text.SegmentationOfWords` | components/rsvp-reader.tsx:32-34 | every text is its words woven with whitespace gaps, with the inner gaps non-empty |
| `Text.WordsAreMaximalRuns` | components/rsvp-reader.tsx:32-34 | both directions together: the words are exactly the maximal non-whitespace runs, in order |
| `Text.NoWordsIffBlank` | components/text-input-dialog.tsx:176 | a text has no words exactly when it is all whitespace |
| `Text.WordsTrailingSpace` | components/rsvp-reader.tsx:32-34 | trailing whitespace adds no word |
| `Text.WordsOfTrim` | components/text-input-dialog.tsx:52-53 | trimming keeps the words of a text |
| `Text.SplitRawCount` | components/text-input-dialog.tsx:176-300 | the unfiltered split has one extra piece for a leading run (or an empty text) and one for a trailing run |
| `Constants.GridPositions` | lib/constants.ts:6-13 | a slider from `lo` to `hi` in steps of `step` has its last position at `hi` |
| `Constants.WpmSettingsConsistent` | lib/constants.ts:2-8 | `MIN_WPM <= DEFAULT_WPM <= MAX_WPM`, both differences are multiples of `WPM_STEP`, 19 positions |
| `Constants.FontSettingsConsistent` | lib/constants.ts:3-13 | the default font size lies on the `FONT_SIZE_STEP` grid between the bounds, 25 positions |
| `Constants.ThresholdsOrdered` | lib/constants.ts:23-25 | `SHORT_WORD_THRESHOLD < LONG_WORD_THRESHOLD < VERY_LONG_WORD_THRESHOLD` |
| `Constants.DelayMultipliersOrdered` | lib/constants.ts:16-20 | `SHORT_WORD_DELAY < 1 < LONG_WORD_DELAY <= VERY_LONG_WORD_DELAY`, and `1 < COMMA_DELAY < SENTENCE_END_DELAY` |
| `Reader.SliderMatchesSettings` | components/rsvp-reader.tsx:100-106 | the slider's min, max and step and the initial wpm are `MIN_WPM`, `MAX_WPM`, `WPM_STEP` and `DEFAULT_WPM` |
| `Reader.Step` | components/rsvp-reader.tsx:39-47 | a tick never changes the words or the speed, never starts reading, and keeps the index in range |
| `Reader.Armed` | components/rsvp-reader.tsx:39 | the interval runs exactly while reading with the index before the end of the words; `DisarmedFrozen` shows a disarmed tick changes nothing |
| `Reader.CurrentWord` | components/rsvp-reader.tsx:75 | the word on screen is `words[currentIndex]` when in range and `""` otherwise |
| `Reader.TickAdvances` | components/rsvp-reader.tsx:46 | before the last word a tick gives `currentIndex + 1` and reading continues |
| `Reader.TickWrapsAtEnd` | components/rsvp-reader.tsx:42-45 | at the last word a tick stops reading and sets the index to 0 |
| `Reader.DisarmedFrozen` | components/rsvp-reader.tsx:39-54 | with no interval armed (not reading, or index past the words) any number of ticks changes nothing |
| `Reader.StepsKeepInRange` | components/rsvp-reader.tsx:39-47 | any number of ticks keeps `0 <= currentIndex < words.length` (or 0 with no words) |
| `Reader.HoldReachesLastWord` | components/rsvp-reader.tsx:41-47 | holding from index `i`, `words.length - 1 - i` ticks reach the last word, still reading |
| `Reader.HoldStopsAtStart` | components/rsvp-reader.tsx:41-47 | holding from index `i`, `words.length - i` ticks stop reading at index 0 |
| `Reader.WordOnScreen` | components/rsvp-reader.tsx:75 | with segmented words and the index in range, the word shown is empty exactly when there are no words |
| `Reader.RsvpReader.constructor` | components/rsvp-reader.tsx:19-35 | after mounting: the text's words, index 0, not reading, wpm 300 |
| `Reader.RsvpReader.Tick` | components/rsvp-reader.tsx:39-47 | one interval firing changes the state as `Step` says and keeps the index invariant |
| `Reader.RsvpReader.PointerDown` | components/rsvp-reader.tsx:63-65 | only `isReading` changes, to true |
| `Reader.RsvpReader.PointerUp` | components/rsvp-reader.tsx:67-69 | only `isReading` changes, to false |
| `Reader.RsvpReader.PointerLeave` | components/rsvp-reader.tsx:71-73 | only `isReading` changes, to false |
| `Reader.RsvpReader.SetWpm` | components/rsvp-reader.tsx:106 | only `wpm` changes |
| `Reader.RsvpReader.HoldUntilStop` | components/rsvp-reader.tsx:38-48 | a held pointer stops after exactly `words.length - i` firings, at index 0 |
| `Dialog.Candidate` | components/text-input-dialog.tsx:50-51 | the selected sample on the sample tab when one is selected, the typed text otherwise |
| `Dialog.Submission` | components/text-input-dialog.tsx:52-53 | the argument of `onTextSubmit`: the trimmed candidate when that is non-empty, else no call; `SubmissionMeaning` and `SubmissionKeepsWords` state what it hands over |
| `Dialog.SubmissionMeaning` | components/text-input-dialog.tsx:50-53 | nothing is submitted exactly when the candidate is blank; a submitted text is non-empty and has no surrounding whitespace |
| `Dialog.SubmissionKeepsWords` | components/text-input-dialog.tsx:50-53 | nothing is submitted exactly when the candidate has no words; a submitted text has the candidate's words |
| `Dialog.WordCount` | components/text-input-dialog.tsx:176 | the live count is 0 exactly for whitespace-only text, and trimming does not change it |
| `Dialog.SubmitEnabled` | components/text-input-dialog.tsx:316 | the negated `disabled` rule: a selected sample on the sample tab, non-blank typed text elsewhere; `EnabledIffSubmits` and `SampleTabEnabledButBlank` relate it to submitting |
| `Dialog.SampleWordCount` | components/text-input-dialog.tsx:300 | the tile count is at least 1 |
| `Dialog.SampleCountMatches` | components/text-input-dialog.tsx:176-300 | for a non-empty text without surrounding whitespace the tile count equals the live count |
| `Dialog.SampleCountOvercounts` | components/text-input-dialog.tsx:176-300 | otherwise the tile count exceeds the live count by one per leading or trailing whitespace run (or for the empty text) |
| `Dialog.EnabledIffSubmits` | components/text-input-dialog.tsx:316 | off the sample tab the button is enabled exactly when submitting hands over a text |
| `Dialog.SampleTabEnabledButBlank` | components/text-input-dialog.tsx:316 | on the sample tab an enabled button submits nothing exactly when the selected sample is whitespace only |
| `Dialog.TextInputDialog.constructor` | components/text-input-dialog.tsx:38-47 | the initial dialog state: closed, paste tab, every text field empty, not extracting |
| `Dialog.TextInputDialog.HandleSubmit` | components/text-input-dialog.tsx:49-58 | on success hands over the trimmed candidate, closes and clears text and sample; otherwise changes nothing; never touches tab, url, file name or extraction state |
| `Dialog.TextInputDialog.Close` | components/text-input-dialog.tsx:54-56 | the dialog is closed and the typed text and chosen sample are cleared; no other field changes |
| `Dialog.TextInputDialog.HandleSampleSelect` | components/text-input-dialog.tsx:73-75 | sets the selected sample and nothing else |
| `Dialog.TextInputDialog.SelectTab` | components/text-input-dialog.tsx:124-159 | sets the active tab and nothing else |
| `Dialog.TextInputDialog.EditText` | components/text-input-dialog.tsx:171 | sets the text and nothing else |
| `Dialog.TextInputDialog.SetOpen` | components/text-input-dialog.tsx:311 | sets `open` and nothing else |
| `Keyboard.ShortcutFor` | hooks/use-keyboard-shortcuts.ts:24-56 | a key selects a callback exactly when it is one of the ten listed keys |
| `Keyboard.IsTextField` | hooks/use-keyboard-shortcuts.ts:17-22 | the guard: an input or a textarea target; `TextFieldsIgnored` shows such events do nothing |
| `Keyboard.HandleKeyDown` | hooks/use-keyboard-shortcuts.ts:15-57 | `preventDefault` is called exactly for a listed key outside a text field; at most one callback fires: the one the `switch` selects for the key, only when it was supplied, and only with `preventDefault` |
| `Keyboard.TextFieldsIgnored` | hooks/use-keyboard-shortcuts.ts:17-22 | in an input or textarea nothing fires and `preventDefault` is not called |
| `Keyboard.NamedKeys` | hooks/use-keyboard-shortcuts.ts:25-36 | space, ArrowLeft, ArrowRight and Escape select onSpace, onLeft, onRight and onEscape |
| `Keyboard.LettersCaseInsensitive` | hooks/use-keyboard-shortcuts.ts:37-51 | `r`/`R`, `s`/`S` and `k`/`K` select onRestart, onSettings and onKeyboard |
| `Keyboard.UnlistedKeysIgnored` | hooks/use-keyboard-shortcuts.ts:24-56 | any other key fires nothing and does not call `preventDefault` |
| `Keyboard.MissingCallbackStillPrevents` | hooks/use-keyboard-shortcuts.ts:26-27 | a listed key whose callback is absent still calls `preventDefault` |

## Left out

- Rendering, JSX, the Dialog, Slider and ThemeToggle components, and the `i / n` progress line are user interface only.
- The `useEffect` lifecycle and `setInterval`/`clearInterval` handle management are real-time timer plumbing. One interval firing is the `Tick` method, and a continuous hold is `HoldUntilStop`.
- `msPerWord = 60000 / wpm` is JavaScript floating-point division and only sets the timer period. Delay magnitudes are not modelled.
- The delay multipliers and length thresholds are only constants: no code applies them, so no per-word delay is modelled.
- `handleFileUpload` (FileReader) and `handleUrlExtract` (`fetch` to `/api/extract`) are I/O, and so are the fields only they write, apart from being kept unchanged by submit.
- `window.addEventListener`/`removeEventListener` is event wiring; only the dispatch function is modelled.
- The sample texts and the reader's built-in text are data, abstracted as arbitrary strings.
- `Reader.RsvpReader.SetWpm`: accepts any value, because the speed range is held only by the slider, whose bounds and step are checked against the constants separately.
- `Text.IsSpace`: a fixed character predicate for ECMAScript's white space and line terminators, shared by split and trim; regular-expression semantics beyond `\s+` are not modelled.
