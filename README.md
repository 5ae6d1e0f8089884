# messenger-proxy: the message and command logic, modelled in Dafny

messenger-proxy is a Node.js service. It drives a headless browser against the
Messenger web interface, so that messages can be sent and read over HTTP. It
also understands two chat commands, `send <conversation> :: <message>` and
`read <conversation> [:: <limit>]`. A background watcher polls one conversation,
logs the new messages to an optional SQLite file and forwards them to a webhook.

This project models the part of the service that does not touch the browser:

- **Commands**: the two command parsers and the classifier that decides whether a
  conversation reference is a numeric id or a display name.
  - Each regular expression is modelled as the search a backtracking engine makes.
  - The lemmas prove that this search finds a match exactly when the pattern
    matches.
  - They also prove that the match it finds is the one the engine reports: the
    longest `\s+`, then the shortest group 1.
- **JsText**: what JavaScript's `\s`, `.`, `trim()` and the `i` flag do at the
  character level.
- **Messages**: a message is an optional sender and a text. Its identity key is
  `sender-or-"" + ":" + text`. The module covers:
  - the last-seen marker diff;
  - de-duplication, which keeps the last occurrence of each key;
  - the noise filter, which holds the ignore list as data.
- **Reader**: what `readMessages` does with the rows it finds on the page:
  - per-row text filtering;
  - the in-place backward sender fill-in, on an `array`;
  - the legacy fallback;
  - `slice(-lim)`;
  - de-duplication and filtering, with a page error turned into `null`.
- **Watch**: one tick of the `poll` loop, modelled twice:
  - as a state machine over `alreadyPolling`, `sendInProgress` and the `lastSeen` map;
  - as a `Watcher` class whose `Poll` method updates those fields.
- **Persistence**: `normalizeConversationRef`, and a `Store` class for
  `persistMessages`.
  - `Store` holds the `sqliteDisabled` switch, the open-database flag and the
    inserted rows.
  - Whether the driver initialises, and which insert fails, are parameters.
- **Screenshots**: the file-name sanitiser for error screenshots.
- **ParserCases**: the command examples from the test suite, derived from the
  general parser lemmas.

Strings are `seq<char>`. Missing JavaScript values (`null`, `undefined`) are
`None`. A value is truthy when it is present and not the empty string (`Truthy`).

## Model

| member | source | states |
|---|---|---|
| JsText.WsRun | src/server.js:303 | the run of `\s` characters at a position is all white space, stays inside the string and cannot be extended |
| JsText.WsRunIsLongest | src/server.js:303 | no white-space run starting at the same position is longer |
| JsText.TrimStart | src/server.js:305 | the result is no longer than the input and does not start with white space |
| JsText.TrimEnd | src/server.js:305 | the result is no longer than the input and does not end with white space |
| JsText.TrimStartIsSuffix | src/server.js:305 | `trimStart` returns a suffix and removes only white space |
| JsText.TrimEndIsPrefix | src/server.js:305 | `trimEnd` returns a prefix and removes only white space |
| JsText.TrimOfPadded | src/server.js:305 | white space around a string does not change its trim |
| JsText.TrimOfUnpadded | src/server.js:305 | a string that neither starts nor ends with white space trims to itself |
| JsText.TrimIdempotent | src/server.js:305 | trimming twice is trimming once |
| JsText.TrimOfWsPaddedSlice | src/server.js:305 | a slice with white space on both sides trims like the inner slice |
| JsText.TrimOfWsPrefixedSuffix | src/server.js:305 | white space in front of a suffix does not change its trim |
| JsText.TrimStartOfWsPrefix | src/server.js:305 | `trimStart` ignores a white-space prefix |
| JsText.TrimEndOfWsSuffix | src/server.js:305 | `trimEnd` ignores a white-space suffix |
| JsText.TrimStartOfConcat | src/server.js:305 | `trimStart` of a concatenation skips the first part only when that part is all white space |
| Commands.GreedyToEndCorrect | src/server.js:303 | backtracking group 2 of `(.+)$` reports a start from which the text to the end has no line terminator, and reports none only when no start in the range works |
| Commands.GroupPositionsForced | src/server.js:301-313 | in any match, the `::` starts right after the white space that ends group 1, and the read limit's digits start right after the white space that follows it |
| Commands.TailAtCorrect | src/server.js:301-313 | the deterministic tail matcher succeeds exactly when some tail matches, and what it returns matches |
| Commands.TailAtSound | src/server.js:301-313 | what the tail matcher returns is a matching tail |
| Commands.TailAtComplete | src/server.js:301-313 | when some tail matches, the tail matcher finds one |
| Commands.LazyGroup1Correct | src/server.js:301-313 | lazy `(.+?)` finds the shortest group 1 that lets the tail match, or reports that none exists |
| Commands.LazyFromCorrect | src/server.js:301-313 | for a fixed `\s+`, the search finds the match with the shortest group 1, or none exists |
| Commands.GreedyWsCorrect | src/server.js:301-313 | backtracking `\s+` from a length down to 1 finds a match exactly when one with at most that much `\s+` exists; it reports the longest `\s+`, and for it the shortest group 1 |
| Commands.GreedyWsSound | src/server.js:301-313 | what the `\s+` backtracking reports is a match with the shortest group 1 for its `\s+` |
| Commands.GreedyWsLongest | src/server.js:301-313 | no match has a longer `\s+` (within the bound) than the reported one |
| Commands.SearchCorrect | src/server.js:301-313 | the whole search finds a match exactly when the pattern matches, and what it finds is the first match in engine order |
| Commands.SearchInBounds | src/server.js:301-313 | the reported group positions lie inside the text, and a read limit is all digits |
| Commands.ParseSendSpec | src/server.js:301-306 | a send command parses exactly when the text matches; the conversation and the message are the trimmed text on either side of the `::` of the first match |
| Commands.SendGroupsTrim | src/server.js:305 | the trimmed groups equal the trimmed text between the keyword and `::`, and after `::` |
| Commands.ParseReadSpec | src/server.js:308-313 | a read command parses exactly when the text matches; with digits the limit is their value, otherwise the limit is 5 and the conversation is everything after the keyword, trimmed |
| Commands.ReadAcceptsSingleLine | src/server.js:310 | any single line of the form `read`, white space, something, parses |
| Commands.SendAcceptsSeparatedLine | src/server.js:303 | any single line of the form `send`, white space, text, `::`, text, parses |
| Commands.SendSplitsAtFirstSeparator | src/server.js:301-306 | when group 1 can end at the first `::` and text follows it, the conversation is the trimmed text before that `::` and the message the trimmed text after it |
| Commands.SendWitness | src/server.js:303 | such a text matches, with the `::` at the given position |
| Commands.SeparatorForced | src/server.js:301-313 | a first match cannot put its `::` later than a position where a match with a shorter group 1 exists |
| Commands.ReadSplitsAtLimit | src/server.js:308-313 | when the text ends in `::`, white space and digits, the limit is the value of those digits and the conversation the trimmed text before the `::` |
| Commands.ReadWitness | src/server.js:310 | such a text matches, with the optional group taken at that `::` |
| Commands.ReadSearchUses | src/server.js:310-312 | the search then reports that match, so the limit is those digits |
| Commands.ReadTailForced | src/server.js:310 | a first match of such a text takes the optional group at that `::` |
| Commands.ReadWithoutLimit | src/server.js:308-313 | a single-line read command that does not end in `::` and digits gets limit 5 and the whole trimmed remainder as the conversation |
| Commands.ReadSearchDefault | src/server.js:310-312 | without such an ending, the search skips the optional group |
| Commands.ReadTailDigits | src/server.js:310 | a read match that takes the optional group ends in `::`, white space and digits; one that skips it ends at the end of the text |
| Commands.ResolveConversationTarget | src/server.js:553-557 | a missing or empty value sets neither field; otherwise exactly one is set; the id is set exactly when the whole value is six or more ASCII digits; the set field holds the value |
| ParserCases.SendCommand | test/server.test.js:13-16 | `send Janek :: Cześć!` parses to conversation `Janek`, message `Cześć!` |
| ParserCases.ReadCommandWithLimit | test/server.test.js:24-27 | `read Janek :: 3` parses to conversation `Janek`, limit 3 |
| ParserCases.ReadCommandWithoutLimit | test/server.test.js:29-32 | `read Janek` parses to conversation `Janek`, limit 5 |
| ParserCases.OtherMessageIsNoCommand | test/server.test.js:18-36 | `hello` is neither a send nor a read command |
| Messages.Keys | src/server.js:316 | the keys are the identity keys of the messages, position by position |
| Messages.KeyIsTruthy | src/server.js:316-317 | a key is never empty, so a stored marker is always truthy |
| Messages.LastIndexOf | src/server.js:317 | the result is the last position holding the element, or -1 when none does |
| Messages.NewFrom | src/server.js:317-318 | the new messages start at a bound within the batch; no later message carries the marker; a non-zero start follows a message that carries it |
| Messages.DiffMessagesSpec | src/server.js:315-321 | the new messages are a suffix of the batch: what follows the last message with the marker, or the whole batch when the marker is falsy or absent; none carries the marker; the new marker is the final key, or the old one for an empty batch |
| Messages.DiffIsSuffix | src/server.js:318 | the new messages are a suffix of the batch |
| Messages.DiffSkipsMarker | src/server.js:317-318 | no new message carries a truthy marker |
| Messages.DiffAfterLastMarker | src/server.js:317-318 | the new messages are exactly those after the last message with the marker |
| Messages.DiffWithoutMarkerKey | src/server.js:317-318 | a falsy or absent marker makes the whole batch new |
| Messages.DiffAgainstOwnMarker | src/server.js:315-321 | diffing a batch against the marker it produced yields nothing new |
| Messages.DiffOfExtendedBatch | src/server.js:315-321 | when a batch is followed by one that extends it with messages not bearing its last key, exactly the extension is new |
| Messages.DiffWithoutMarker | src/server.js:315-321 | with no marker, `[a, b]` is all new and the marker becomes `:b` |
| Messages.DiffAfterMarker | src/server.js:315-321 | with marker `:b`, only `c` of `[a, b, c]` is new |
| Messages.KeySetMembers | src/server.js:324-330 | a key is in the key set exactly when some message has it |
| Messages.DedupeMessages | src/server.js:323-334 | the reverse loop with a `seen` set, followed by a reversal, computes the last occurrence of every key, in order |
| Messages.KeepLastIsLastOccurrences | src/server.js:323-334 | the de-duplicated list is exactly the elements at last-occurrence positions, in input order |
| Messages.KeepLastSubsequence | src/server.js:323-334 | the de-duplicated list is a subsequence of the input |
| Messages.KeepLastSameKeys | src/server.js:323-334 | it has the same set of keys as the input |
| Messages.KeepLastDistinct | src/server.js:323-334 | its keys are pairwise distinct |
| Messages.KeepLastOfDistinct | src/server.js:323-334 | a list with distinct keys is left unchanged |
| Messages.KeepLastIdempotent | src/server.js:323-334 | de-duplicating twice is de-duplicating once |
| Messages.SubsequenceReflexive | src/server.js:323-334 | a list is a subsequence of itself |
| Messages.FilterMessages | src/server.js:337 | a missing list gives the empty list |
| Messages.FilterMessagesSpec | src/server.js:336-352 | a missing list gives `[]`; otherwise the output is an order-preserving subsequence of exactly the messages with non-empty text and no matching ignore pattern |
| Messages.KeepSignalMembers | src/server.js:351 | the filter keeps exactly the signal messages |
| Messages.KeepSignalSubsequence | src/server.js:351 | the filter's output is a subsequence of its input |
| Messages.KeepSignalAppend | src/server.js:351 | filtering distributes over concatenation |
| Messages.KeepSignalIdempotent | src/server.js:351 | filtering twice is filtering once |
| Messages.SubsequenceKeepsDistinct | src/server.js:724-725 | keys that are distinct stay distinct in any subsequence, so filtering keeps the de-duplication |
| Messages.SubsequenceMember | src/server.js:351 | every element of a subsequence occurs in the full list |
| Messages.ClockIsNoise | src/server.js:344 | `12:30` and `9:05` are noise |
| Messages.DayAndClockIsNoise | src/server.js:345 | `Pon, 12:30` is noise |
| Messages.PolishCaseIsNoise | src/server.js:340 | `otwórz` is noise, matched case-insensitively |
| Reader.PickSender | src/server.js:677-688 | a sender is trimmed and non-empty; a usable avatar text wins; otherwise there is no sender exactly when the heading is missing or blank |
| Reader.RowMessagesSpec | src/server.js:692-698 | each row message carries the row's sender and a trimmed text that is non-empty, differs from the sender and has no "wysłano" marker; every such text gives a message; a single text gives exactly one message when it passes and none otherwise |
| Reader.RowMessagesAppend | src/server.js:693-698 | the texts are handled one after another, so the row's messages are one per passing text, in text order |
| Reader.RowMessagesSound | src/server.js:692-698 | every row message comes from a passing text of the row |
| Reader.RowMessagesComplete | src/server.js:692-698 | every passing text of the row gives a message |
| Reader.CollectedSpec | src/server.js:690-699 | a collected message comes from one row's messages, every row's messages are collected, and a single row gives exactly its own messages |
| Reader.CollectedAppend | src/server.js:690-699 | the rows are handled one after another, so the collected messages are the rows' messages concatenated in row order |
| Reader.CollectRows | src/server.js:690-699 | the nested loops push exactly the row messages, row by row |
| Reader.NearestSenderSpec | src/server.js:702-711 | the nearest sender is that of the earliest message that has one, and is absent only when none has |
| Reader.FillSenders | src/server.js:701-711 | the in-place backward loop turns the array into the backfilled list |
| Reader.BackfillSpec | src/server.js:701-711 | the fill-in keeps the length, every text and every sender already set; a filled sender is that of the nearest later message with one; a sender-less message with no later sender stays sender-less |
| Reader.UnfilledHasNoLaterSender | src/server.js:701-711 | a message left without a sender has no later message with one |
| Reader.BackfillIdempotent | src/server.js:701-711 | filling twice changes nothing more |
| Reader.LegacyMessagesSpec | src/server.js:714-719 | every fallback message is sender-less with the non-empty trimmed text of some legacy element, every non-blank element gives one, and a single element gives exactly one message when it is not blank and none otherwise |
| Reader.LegacyMessagesMembers | src/server.js:714-719 | the same membership and length facts, by induction over the elements |
| Reader.LegacyMessagesAppend | src/server.js:714-718 | the elements are handled one after another, so the fallback gives one message per non-blank element, in document order |
| Reader.SliceLastSpec | src/server.js:721 | a positive limit keeps the last `lim` entries, zero keeps all, a negative one drops the first `-lim` |
| Reader.ExtractMessages | src/server.js:674-722 | the in-page callback collects, fills senders in place, falls back to legacy texts when nothing was collected, and truncates |
| Reader.ReadMessages | src/server.js:660-746 | an error inside the `try` gives `null`; otherwise the result is the extracted list, de-duplicated and filtered |
| Reader.ReadResultSpec | src/server.js:724-731 | a successful read has pairwise distinct keys and only signal messages, keeps page order, and has at most `lim` messages for a positive limit |
| Reader.SubsequenceLength | src/server.js:724-725 | a subsequence is no longer than the list |
| Watch.TickQuiet | src/server.js:786-811 | a tick while polling does nothing; a tick during a send, or after a null or empty read, changes nothing; a throwing read leaves `alreadyPolling` set |
| Watch.TickDelivers | src/server.js:799-807 | a non-empty read hands on exactly the diff's new messages, a suffix of the batch; it records the batch's last key for the target only and clears `alreadyPolling` |
| Watch.TickKeepsOneTarget | src/server.js:799-806 | the watcher records markers for its own target only |
| Watch.SameBatchTwiceHandsNothing | src/server.js:786-811 | reading the same non-empty batch on the next tick hands nothing on and leaves the state unchanged |
| Watch.RecordingSameKey | src/server.js:806 | recording the marker already stored leaves the map unchanged |
| Watch.ExtendedBatchHandsOnExtra | src/server.js:786-811 | when the next read extends the previous batch with messages not bearing its last key, exactly those are handed on |
| Watch.SkippedWhilePolling | src/server.js:787 | while `alreadyPolling` is set, every tick of a run is skipped |
| Watch.StuckAfterThrow | src/server.js:786-811 | after a read throws, `alreadyPolling` stays set and no later tick hands anything on |
| Watch.RecoversAfterThrow | src/server.js:786-811 | with `alreadyPolling` reset on a throw, the next good read is handled as if the throw had not happened |
| Watch.WebhookPayloads | src/server.js:748-765 | with a URL there is one payload per message, in order, carrying the reference's key, id and name; without a URL there are none |
| Watch.Watcher.constructor | src/server.js:778-785 | the watcher starts with both flags clear and no markers |
| Watch.Watcher.BeginSend | src/server.js:563 | `sendMessage` sets `sendInProgress` and nothing else |
| Watch.Watcher.EndSend | src/server.js:654-655 | its `finally` clears `sendInProgress` and nothing else |
| Watch.Watcher.Poll | src/server.js:786-811 | the new state and the messages persisted are those of one tick; the webhook payloads are those for the persisted messages |
| Watch.ThrowStopsWatcher | src/server.js:808-810 | a watcher whose first read throws persists nothing on the next read |
| Watch.FirstReadHandsAll | src/server.js:786-811 | a first good read hands its whole batch on; an identical second read hands nothing |
| Persistence.NormalizeSpec | src/sqlite.js:57-75 | a falsy reference gives all nulls; a string gives its trimmed text as key, or null when that is empty; an object's key is its trimmed key when that is non-empty, else its trimmed id when that is non-empty, else its trimmed name when that is non-empty, else null, and its id and name are trimmed when truthy, else null |
| Persistence.BlankIdIsKeptEmpty | src/sqlite.js:69 | a white-space-only id becomes `""`, not null |
| Persistence.NormalizeKeepsKey | src/sqlite.js:65-72 | normalising an already normalised object reference keeps its key |
| Persistence.RowsForSpec | src/sqlite.js:129-143 | there is at most one row per message; every row is the row `[key, id, name, sender-or-null, text]` of some message with text; every message with text has its row; there are no rows exactly when no message has text |
| Persistence.RowsForAppend | src/sqlite.js:129-143 | rows are emitted message by message, in order |
| Persistence.RowsBeforeFailure | src/sqlite.js:129-143 | the rows of the messages before one with text are a proper prefix of all rows |
| Persistence.Store.constructor | src/sqlite.js:3-9 | a fresh store is neither disabled nor open and holds no rows |
| Persistence.Store.Persist | src/sqlite.js:77-149 | a rejected call (no path, disabled, no messages, no key) returns false and changes nothing; a failed initialisation returns false and sets the switch; otherwise the rows for the messages are appended up to the failing insert, and the result is true exactly when no insert failed |
| Persistence.Store.InsertAll | src/sqlite.js:129-148 | the loop appends one row per message with text, in order, stops at the failing insert with the earlier rows kept, and reports whether it finished |
| Persistence.NotConfiguredStoresNothing | test/server.test.js:92-98 | without a database path nothing is stored and the call returns false |
| Persistence.StoresOneRow | test/server.test.js:100-135 | with a working driver, one message gives the row `[conv-key, 123, Tomasz, Janek, Siema]` |
| Persistence.DisabledStaysDisabled | src/sqlite.js:109-123 | after a failed initialisation every later call returns false, even once the driver would work |
| Screenshots.SafeNameSpec | src/server.js:79 | the file-name part has only `[A-Za-z0-9_-]` characters and is no longer than the name; a safe name is kept as it is; every safe character is kept in place between the replacements of what precedes and follows it; every maximal run of unsafe characters becomes exactly one `_`; a missing or empty name gives `conversation` |
| Screenshots.CollapseSpec | src/server.js:79 | the replacement produces only safe characters, never lengthens, and keeps a safe string |
| Screenshots.GivenNameSpec | src/server.js:79 | for a given name: only safe characters, no longer than the name, a safe name kept, each safe character kept in place, each maximal unsafe run replaced by one `_` |
| Screenshots.SafeCharactersKept | src/server.js:79 | the replacement of a name splits at any safe character, which is copied |
| Screenshots.UnsafeRunsReplaced | src/server.js:79 | the replacement of a name splits at any maximal unsafe run, which becomes one `_` |
| Screenshots.UnsafeRunReplacedAt | src/server.js:79 | the same for one maximal run `n[i..j]` |
| Screenshots.CollapseThroughSafe | src/server.js:79 | a safe character is copied whatever state the scan is in, and closes any open run |
| Screenshots.CollapseRun | src/server.js:79 | a non-empty run with no safe character, followed by nothing or by a safe character, gives one `_` (or nothing when a run is already open) |
| Screenshots.ReplaceRun | src/server.js:79 | an unsafe run between safe neighbours (or the ends) becomes one `_` and the two sides are replaced independently |
| Screenshots.DefaultNameIsSafe | src/server.js:79 | `conversation` is safe and kept |
| Screenshots.SafeNameIdempotent | src/server.js:79 | sanitising a sanitised name changes nothing |
| Screenshots.CollapseAppend | src/server.js:79 | a run of unsafe characters never crosses a safe one, so the replacement works piece by piece |
| Screenshots.ReplaceExamples | src/server.js:79 | `a b` and `a, b` become `a_b`; `x-y_z` is kept |

## Left out

- The browser automation is not modelled. This covers logging in, PIN unlock, cookie banners, navigation, conversation search and clicks, `sendMessage`, and every DOM query. A page is given as an abstract list of rows and legacy texts. `ReadMessages` takes a flag that says whether anything inside its `try` throws.
- The Express routes (`/health`, `/notify`), the `postJson` HTTP client and the webhook's network errors are not modelled. `WebhookPayloads` gives the payloads that would be posted.
- The screenshot's file I/O and its `Date().toISOString()` timestamp are not modelled. Nor are the storage-state files, signal handlers, `process.exit` and `setInterval`. Nor is console logging.
- The sqlite3 driver is not modelled. Its loading, opening and table creation are one `initSucceeds` parameter. Each insert's success is given by `failingInsert`.
- Persistence.Store.Persist: the promise memoisation of `initDatabase` is not modelled. It only matters for concurrent calls. The generated `id` and `logged_at` columns are also left out.
- Watch.Watcher.Poll: `poll` is `async`. The model runs each tick to completion, so an interleaving of a tick with a `sendMessage` call is not captured. The watcher does not call `Store.Persist` itself; the messages it returns are what it passes on.
- `normalizeText` is not part of this model. It is used only by the browser-side conversation lookup.
- Commands.ParseRead: `Number()` of the digit string is modelled as the exact decimal value (`DigitsValue`). Floating-point rounding of very long limits is not captured.
- Messages and rows cannot be `null` in this model, so the `!message` guard of the insert loop is not represented.
- Persistence.NormalizeConversationRef: the fields of an object reference are strings or missing. A non-string field, which `String(x)` would convert, is not modelled. `OtherRef` stands for a truthy value that is neither a string nor an object. A numeric `0` counts as a falsy `Missing` reference.
- Strings are sequences of Unicode scalar values, not UTF-16 code units.
- Reader.SliceLast: the limit is an integer. The watcher's `Number(process.env.WATCH_LIMIT) || 10` can be fractional, negative or `Infinity`, but `slice` converts its argument to an integer (truncating, and clamping infinities to the length), so every such limit acts like some integer limit.
- JsText.Fold: case-insensitive matching folds ASCII letters and the Polish letters that the patterns use. Case folding of other letters is not modelled. The patterns contain nothing else that folds.
- The `diffMessages` tests expect a `lastSeenText` field and text-only markers. The code returns `lastSeenKey` and compares `sender:text` keys, and the model follows the code.
- Commands.ParseSendSpec: the conversation is not always the text before the *first* `::`. With empty text before it (`send  :: a :: b`), group 1 extends to a later `::`. The lemma states the exact rule: the first match in engine order. `SendSplitsAtFirstSeparator` gives the common case where the first `::` is used.

## Findings

| source | as written | input that shows it | evidently intended | confidence | as-written member | corrected member |
|---|---|---|---|---|---|---|
| src/server.js:808-810 | the `catch` of `poll` only logs, leaving `alreadyPolling` true, so every later tick returns at once and the watcher stops for good | any tick whose `readMessages` throws, for example when `ensureLoggedIn` (called outside the `try` of `readMessages`, src/server.js:661) fails once | the flag is reset on every path, as the early returns at lines 791 and 796 do, so a transient error costs one tick | medium; not executed | Watch.StuckAfterThrow | Watch.RecoversAfterThrow |

`Watch.Tick` and `Watch.Watcher.Poll` model the code as written. `Watch.TickRecovering` is the corrected tick.
