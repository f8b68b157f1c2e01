# Vocabulary review session of flicktionary, modelled in Dafny

flicktionary is a desktop app for learning vocabulary from videos. The user
uploads a video, its SRT subtitles and a list of vocabulary words. A review
session then shows the words one at a time. For each word it plays the
video clip around the word's subtitle interval, and the user answers
"I already knew" or "I didn't know".

This project models the parts of the review that make decisions:

- **The session** (`session.dfy`, module `Session`). The state is the word
  list, the current position and one answer record per term. An answer
  records or overwrites the record for the current term, and the
  "was unknown" flag stays set once set. "Didn't know" queues the word
  again at the end of the list. Navigation stays in range. Finishing
  requires one record per original list entry, all answered "known".
  - Each operation is a function on a `State` value.
  - The properties are lemmas about those functions and about runs of
    user actions.
  - The class `ReviewSession` keeps the same state in mutable fields. Its
    handler methods update the fields the way the component does, and each
    is proved to perform the matching function's transition.
- **The subtitle conversion** (`subtitles.dfy`, module `Subtitles`). This is
  `srtToVtt`: it adds the WebVTT header, deletes carriage returns, and
  rewrites `HH:MM:SS,mmm` to `HH:MM:SS.mmm` one line at a time. The model
  follows the code: split into lines, map each line, join. It proves the
  result equals the header followed by a single left-to-right scan of the
  stripped text. The header and the dot separator follow section 4.1 of
  the W3C WebVTT specification.
- **The video clip bounds** (`video.dfy`, module `Video`).
  - `timestampToSeconds` is modelled in whole milliseconds.
  - The clip window runs from one second before the word's subtitle
    interval (never before 0) to one second after it.
  - The class `Player` models the `loadedmetadata` and `timeupdate`
    handlers: seek to the clip start, and pause and rewind once playback
    reaches the clip end.
- **Supporting modules.**
  - `strings.dfy` (module `Strings`) holds JavaScript's
    `split`/`join` on a one-character separator, with both round trips
    proved, and the decimal value of a digit string.
  - `types.dfy` (module `Types`) holds the records of
    `src/renderer/types/index.ts`.
  - `wrappers.dfy` (module `Wrappers`) holds `Option` and `Result`.

`WordResult` in `src/renderer/types/index.ts:19-22` declares only `word` and
`known`. The session component also writes and reads a `wasUnknown` field
(`src/renderer/components/VocabularySession.tsx:84,89`), so the model's
`WordResult` carries it.

Facts about the code that shape the model:

- `srtToVtt` only changes the separator of each timestamp. It shifts no
  timestamp by an offset and clamps none at zero, so the model has no
  offset parameter.
- The clip roll is one second on each side
  (`src/renderer/components/VideoPlayer.tsx:42-43`).
- `handleNavigation('next')` itself does not check that the current word is
  answered. That gate lives only in the Next button's `disabled` condition
  (`VocabularySession.tsx:211-214`). So `Navigate` models the handler and
  `ClickNavigation` models a click on the button.
- The finish guard compares the number of records with the length of the
  original list (`VocabularySession.tsx:120`). There is one record per
  term, so a list that repeats a term can never be finished
  (`Session.DuplicateTermBlocksFinish`). "Finishes exactly when every
  original word's latest answer is known" holds only for lists without
  repeated terms (`Session.FinishIffAllKnown`).
- `HandleFinish` hands on records that are all "known"
  (`Session.ReviewSession.HandleFinish`). The app's completion handler
  keeps only the records that are not known (`src/renderer/App.tsx:22-24`),
  so the list it saves is always empty.

## Model

| member | source | states |
|---|---|---|
| Strings.Split | src/renderer/components/VocabularySession.tsx:53 | `split` on one character: one more part than there are separators, and no part contains the separator |
| Strings.Join | src/renderer/components/VocabularySession.tsx:55 | `join` of a non-empty list holds at least as many separators as there are gaps between its parts |
| Strings.JoinSplit | src/renderer/components/VocabularySession.tsx:53-55 | joining the parts of a split gives back the original text |
| Strings.SplitJoin | src/renderer/components/VocabularySession.tsx:53-55 | splitting a join of separator-free parts gives back the parts |
| Strings.SplitAtFirst | src/renderer/components/VideoPlayer.tsx:21 | a text split at its first separator gives the part before it, then the split of the rest |
| Strings.SplitWithoutSeparator | src/renderer/components/VideoPlayer.tsx:21 | a text without the separator splits into itself alone |
| Strings.CountAppend | src/renderer/components/VocabularySession.tsx:50-55 | the separators in a concatenation are those of both parts |
| Strings.DigitsValue | src/renderer/components/VideoPlayer.tsx:22-23 | the decimal value of a digit string is below 10 to the power of its length |
| Strings.DigitValue | src/renderer/components/VideoPlayer.tsx:22-23 | a single digit is worth its distance from `0` |
| Strings.DigitsValueAppend | src/renderer/components/VideoPlayer.tsx:22-23 | the value of two digit strings written one after the other is the first shifted left by the length of the second, plus the second: positional decimal notation |
| Subtitles.StripCarriageReturns | src/renderer/components/VocabularySession.tsx:52 | the result has no carriage return, is shorter by exactly the number of carriage returns, keeps the count of every other character, and equals the input when it has none; its order and contents are fixed by the next two rows |
| Subtitles.StripOne | src/renderer/components/VocabularySession.tsx:52 | a single carriage return is dropped and any other single character is kept |
| Subtitles.StripCarriageReturnsAppend | src/renderer/components/VocabularySession.tsx:52 | stripping a concatenation strips each part in turn, so the kept characters stay in their order |
| Subtitles.Dotted | src/renderer/components/VocabularySession.tsx:54 | the `$1.$2` replacement: the twelve characters of a match with the comma at the ninth place made a dot and every other character kept |
| Subtitles.IsTimeAt | src/renderer/components/VocabularySession.tsx:54 | a match of `\d{2}:\d{2}:\d{2},\d{3}` fits in the text and has its comma at the ninth place |
| Subtitles.ReplaceTimes | src/renderer/components/VocabularySession.tsx:54 | the global `replace` keeps the length of the text; its contents are given by `ReplaceTimesExact` |
| Subtitles.OnlyMatchCommasReplaced | src/renderer/components/VocabularySession.tsx:54 | the timestamp scan keeps the length and every character, except the comma of a matched `HH:MM:SS,mmm`, which may become a dot |
| Subtitles.ScanMatch | src/renderer/components/VocabularySession.tsx:54 | the positions where the global regex matches, defined without the scan: an occurrence of the pattern that no earlier match overlaps |
| Subtitles.ScanMatchShift | src/renderer/components/VocabularySession.tsx:54 | where no match found so far overlaps position `d`, the matches of the global scan from `d` on are those of the scan of the text from `d` |
| Subtitles.FrontMatchScan | src/renderer/components/VocabularySession.tsx:54 | a timestamp at the front is a match of the scan, no match starts inside it, and the scan resumes after its twelve characters |
| Subtitles.FrontCharScan | src/renderer/components/VocabularySession.tsx:54 | a front character that starts no timestamp is no match, and the scan resumes at the next character |
| Subtitles.ReplaceTimesExact | src/renderer/components/VocabularySession.tsx:54 | exactly the commas of the matches of the left-to-right, non-overlapping scan become dots, and every other character is kept |
| Subtitles.IsolatedMatchReplaced | src/renderer/components/VocabularySession.tsx:54 | a timestamp with no other timestamp pattern starting in the eleven positions before it always gets its comma turned into a dot; the general case is `ReplaceTimesExact` |
| Subtitles.ReplaceTimesAtMatch | src/renderer/components/VocabularySession.tsx:54 | a timestamp at the front becomes its dotted form, and the scan resumes right after it |
| Subtitles.ShortUnchanged | src/renderer/components/VocabularySession.tsx:54 | a text shorter than one timestamp is left unchanged |
| Subtitles.ReplaceTimesAround | src/renderer/components/VocabularySession.tsx:53-54 | no match spans a character outside the timestamp pattern, such as a newline, so the scan splits around it |
| Subtitles.ReplaceInLines | src/renderer/components/VocabularySession.tsx:54 | mapping over the lines keeps their number and converts each line by the scan |
| Subtitles.ReplaceCommutesWithJoin | src/renderer/components/VocabularySession.tsx:53-55 | converting line by line and joining equals scanning the joined text |
| Subtitles.ReplaceTimesKeepsCount | src/renderer/components/VocabularySession.tsx:54 | the scan keeps the number of every character other than comma and dot, and hence the number of lines |
| Subtitles.ConvertBody | src/renderer/components/VocabularySession.tsx:51-55 | split, convert the lines and join is one scan of the text, and adds neither a carriage return nor a newline |
| Subtitles.SrtToVtt | src/renderer/components/VocabularySession.tsx:48-57 | the output starts with the header, equals the header plus one scan of the text without carriage returns, has no carriage return, has length 8 + input length − carriage returns, and has two more newlines and two more lines than the input |
| Subtitles.TimingLineScan | src/renderer/components/VocabularySession.tsx:54 | the scan of `begin --> end` converts both timestamps |
| Subtitles.CueTimingLineConverts | src/renderer/components/VocabularySession.tsx:48-57 | an SRT cue timing line `HH:MM:SS,mmm --> HH:MM:SS,mmm` becomes the header followed by the same line with both commas turned into dots |
| Subtitles.MatchThenShort | src/renderer/components/VocabularySession.tsx:54 | with a timestamp at the front and too little text after it for another, only the front one is converted |
| Subtitles.SecondScanOfOverlap | src/renderer/components/VocabularySession.tsx:54 | scanning the once-converted text converts the second, overlapping timestamp |
| Subtitles.ReplaceTimesNotIdempotent | src/renderer/components/VocabularySession.tsx:54 | when a second timestamp starts inside the first, one scan converts only the first comma, a second scan also converts the other, and the two results differ |
| Session.FindIndex | src/renderer/components/VocabularySession.tsx:78 | `findIndex`: -1 exactly when no record has the term, otherwise the first record with the term |
| Session.SameFirstMatch | src/renderer/components/VocabularySession.tsx:78 | two record lists that agree position by position on which records hold a term give the same first index for it |
| Session.Lookup | src/renderer/components/VocabularySession.tsx:130 | `find`: nothing exactly when no record has the term; otherwise a record with the term, and with unique terms the only one |
| Session.ReplaceRecord | src/renderer/components/VocabularySession.tsx:80-95 | overwriting the existing record keeps the sticky flag, changes no other term's record and keeps terms unique |
| Session.FindIndexAppend | src/renderer/components/VocabularySession.tsx:78-97 | appending a record changes no first index of the earlier records' terms, and a fresh term is found at the end |
| Session.AppendRecord | src/renderer/components/VocabularySession.tsx:86-97 | a record appended for a fresh term is its record, with `wasUnknown` set exactly when the answer is "didn't know"; other terms unchanged, terms still unique |
| Session.Upsert | src/renderer/components/VocabularySession.tsx:78-98 | one record per answered term, overwritten in place or appended; its `wasUnknown` is the old flag or "didn't know"; other terms unchanged; terms stay unique |
| Session.Inv | src/renderer/components/VocabularySession.tsx:14-16 | the state invariant (a non-empty original list that is a prefix of the word list, a position in range, words and records from the original list, one record per term) gives a current word and an original list no longer than the word list |
| Session.Start | src/renderer/components/VocabularySession.tsx:14-16 | the initial state holds the invariant, starts at position 0 with no records, cannot be finished, and Next is disabled there |
| Session.Respond | src/renderer/components/VocabularySession.tsx:77-108 | records the answer for the current term; "didn't know" appends the current word and moves on; "known" moves on unless at the last position; the invariant and the per-term record facts are kept |
| Session.Navigate | src/renderer/components/VocabularySession.tsx:110-116 | Prev and Next move by one within range and change nothing else; the invariant is kept |
| Session.CurrentWord | src/renderer/components/VocabularySession.tsx:59 | the definition of `currentWord`: the entry of the word list at the current position |
| Session.LatestAnswer | src/renderer/components/VocabularySession.tsx:129-131 | no answer exactly when no record has the term; with unique terms, the answer of the record that has it |
| Session.CurrentResponse | src/renderer/components/VocabularySession.tsx:129-132 | no answer exactly when the current term has no record; with unique terms, the answer of its record |
| Session.IsCurrentAnswered | src/renderer/components/VocabularySession.tsx:134-136 | true exactly when some record holds the current term, which is when `CurrentResponse` has an answer |
| Session.ButtonEnabled | src/renderer/components/VocabularySession.tsx:202-214 | Previous is enabled exactly away from the first word; Next exactly when the current word is answered and is not the last |
| Session.ClickNavigation | src/renderer/components/VocabularySession.tsx:201-219 | a click on Previous is the handler; a click on Next moves to the next index exactly when the current word is answered and not the last, and otherwise stays; the invariant is kept |
| Session.CanFinish | src/renderer/components/VocabularySession.tsx:119-121 | when the finish guard holds, every recorded term's latest answer is "known" (with one record per term) |
| Session.FinishMeansAllKnown | src/renderer/components/VocabularySession.tsx:118-122 | with no repeated original terms, a session that can finish has "known" as the latest answer of every original word |
| Session.AllKnownMeansFinish | src/renderer/components/VocabularySession.tsx:118-122 | with no repeated original terms, "known" as every original word's latest answer makes the session finishable |
| Session.EveryTermAnswered | src/renderer/components/VocabularySession.tsx:118-122 | every original term has a record once each has a latest answer |
| Session.EveryRecordKnown | src/renderer/components/VocabularySession.tsx:121 | every record says "known" when every original term's latest answer does |
| Session.FinishIffAllKnown | src/renderer/components/VocabularySession.tsx:118-127 | with no repeated original terms, finishing is possible exactly when every original word's latest answer is "known" |
| Session.DuplicateTermBlocksFinish | src/renderer/components/VocabularySession.tsx:120 | an original list that repeats a term can never be finished |
| Session.WordTermsCount | src/renderer/components/VocabularySession.tsx:120 | a list has at most as many distinct terms as entries, and exactly as many when no term repeats |
| Session.ResultTermsCount | src/renderer/components/VocabularySession.tsx:78-98 | with one record per term, the records number exactly their distinct terms |
| Session.ResultTermsFromOriginal | src/renderer/components/VocabularySession.tsx:102 | every recorded term is a term of the original list |
| Session.Step | src/renderer/components/VocabularySession.tsx:186-219 | an answer or navigation click keeps a current word and keeps the invariant |
| Session.Run | src/renderer/components/VocabularySession.tsx:186-219 | any sequence of answers and clicks keeps the invariant |
| Session.RunQueueGrowth | src/renderer/components/VocabularySession.tsx:100-103 | after any run, the old list is a prefix of the new one, which is longer by exactly the number of "didn't know" answers |
| Session.RunWasUnknown | src/renderer/components/VocabularySession.tsx:80-90 | after any run, a term's record says "was unknown" exactly when it did before or the term was answered "didn't know" during the run |
| Session.KnownFirst | src/renderer/components/VocabularySession.tsx:77-108 | the first answer "known" of a two-word session records it and moves to the second word |
| Session.UnknownSecond | src/renderer/components/VocabularySession.tsx:77-108 | "didn't know" for the second word queues it again, moves to the repeat and records it as unknown |
| Session.KnownRepeat | src/renderer/components/VocabularySession.tsx:77-127 | "known" for the repeat overwrites its record but keeps it "was unknown", and the session can then be finished when it could not before |
| Session.ReviewScenario | src/renderer/components/VocabularySession.tsx:77-127 | the whole two-word session, with known, didn't know and known again, ends finishable with the expected records |
| Session.ReviewSession.constructor | src/renderer/components/FileUpload.tsx:167 | a session started from a non-empty list is in the initial state |
| Session.ReviewSession.HandleResponse | src/renderer/components/VocabularySession.tsx:77-108 | the in-place update of records, list and position performs `Respond` and keeps the invariant |
| Session.ReviewSession.HandleNavigation | src/renderer/components/VocabularySession.tsx:110-116 | the in-place position update performs `Navigate` and keeps the invariant |
| Session.ReviewSession.ClickButton | src/renderer/components/VocabularySession.tsx:201-219 | a button click performs `ClickNavigation` and keeps the invariant |
| Session.ReviewSession.HandleFinish | src/renderer/components/VocabularySession.tsx:118-127 | succeeds exactly when the finish guard holds, handing on the records, all "known"; otherwise reports an incomplete session and changes nothing |
| Video.DecimalValue | src/renderer/components/VideoPlayer.tsx:22-23 | a field has a value exactly when it is a non-empty string of digits, and that value is the decimal value of its digits |
| Video.TimestampToMillis | src/renderer/components/VideoPlayer.tsx:20-24 | a clock part with fewer than three colon-separated fields gives no value |
| Video.ClockMillis | src/renderer/components/VideoPlayer.tsx:22-23 | fewer than three fields or an unreadable fraction give no value |
| Video.SplitClock | src/renderer/components/VideoPlayer.tsx:22 | `h:m:s` splits at colons into its three fields |
| Video.ClockHasNoComma | src/renderer/components/VideoPlayer.tsx:21-22 | a clock of digit fields holds no comma and splits into its three fields |
| Video.SplitTimestamp | src/renderer/components/VideoPlayer.tsx:21-22 | `h:m:s,f` splits at the comma into the clock and `f`, and the clock into its fields |
| Video.TimestampValue | src/renderer/components/VideoPlayer.tsx:20-24 | `H:M:S,mmm` is ((H × 60 + M) × 60 + S) × 1000 + mmm milliseconds |
| Video.TimestampWithoutMillis | src/renderer/components/VideoPlayer.tsx:20-24 | `H:M:S` with no comma counts whole seconds |
| Video.TimestampWithEmptyMillis | src/renderer/components/VideoPlayer.tsx:23 | an empty part after the comma adds nothing |
| Video.TimestampExample | src/renderer/components/VideoPlayer.tsx:20-24 | `01:02:03,456` is 3723456 milliseconds |
| Video.ClipStart | src/renderer/components/VideoPlayer.tsx:42 | the clip starts at most one second before the interval, at the interval start or earlier, and at 0 whenever it is not exactly one second before |
| Video.ClipEnd | src/renderer/components/VideoPlayer.tsx:43 | the clip ends exactly one second after the interval end |
| Video.ClipWindow | src/renderer/components/VideoPlayer.tsx:42-43 | the clip covers the subtitle interval and is non-empty when the interval does not run backwards |
| Video.Player.constructor | src/renderer/components/VideoPlayer.tsx:30-43 | a new autoplaying player for the word's clip, at position 0 |
| Video.Player.OnLoadedMetadata | src/renderer/components/VideoPlayer.tsx:47-49 | seeks to the clip start without changing whether it is paused |
| Video.Player.OnTimeUpdate | src/renderer/components/VideoPlayer.tsx:51-57 | a non-zero position at or past the clip end pauses and rewinds to the clip start, anything else changes nothing; afterwards a non-empty clip holds the position |

## Left out

- Electron main process, preload bridge, file dialogs, the upload screen
  and the app shell (`src/main/main.ts`, `src/main/preload.js`,
  `src/renderer/components/FileUpload.tsx`, `src/renderer/App.tsx`). They are I/O
  and wiring around the session. Only the upload screen's non-empty-list
  condition (`FileUpload.tsx:167`) is modelled, as the constructor's
  precondition.
- Object URLs, `FileReader`, `Blob` and the audio conversion
  (`VocabularySession.tsx:22-46,61-75`). These are browser and
  foreign-process I/O. The subtitle text reaches `SrtToVtt` as a plain
  string.
- The progress bar (`VocabularySession.tsx:140-148`). It is display only
  and uses floating-point percentages.
- Which buttons are shown, except the two navigation buttons' `disabled`
  conditions. The Finish button appears only at the last position
  (`VocabularySession.tsx:221-225`). `HandleFinish` models the handler,
  which itself does not check the position.
- `onComplete` and the `alert` of a refused finish. They are calls out of
  the component. `HandleFinish` returns the records or `IncompleteSession`
  instead.
- Creating, readying and disposing the video.js player, its controls and
  the playback rates (`VideoPlayer.tsx:26-38,60-66`). These are calls into
  a library. `Player` holds only the position and the paused flag that the
  two handlers read and write; the `autoplay` option is modelled as a new
  player starting unpaused.
- The once-only registration of the `loadedmetadata` handler
  (`player.one`, `VideoPlayer.tsx:47`). `OnLoadedMetadata` may be called
  any number of times; each call seeks to the clip start.
- React's batching of state updates. The functional updates in
  `handleResponse` apply to the state the handler read, and the model
  applies them in order to one snapshot.
- Video.TimestampToMillis: times are whole milliseconds rather than
  floating-point seconds. A millisecond part of any width counts as that
  many milliseconds, as `parseInt(ms) / 1000` seconds does.
- Video.DecimalValue: does not follow JavaScript's lenient conversions.
  `Number("")` is 0. `Number` accepts signs, spaces and exponents.
  `parseInt` stops at the first non-digit. Any field that is not a
  non-empty digit string gives `None`, which stands for the NaN that
  undefined fields produce.
- Video.ClipStart: a timestamp that yields NaN has no clip in the model.
  The clip functions take the parsed milliseconds.
