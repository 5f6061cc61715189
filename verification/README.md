# OpenQR scan pipeline in Dafny

OpenQR turns the keystrokes a hardware QR scanner "types" into URLs and then
decides whether a URL is safe to open. This project models the deterministic
core of that pipeline as pure Dafny functions over `seq<char>` and proves
properties about it.

The Python desktop app:

- `QRListener` assembles frames. It has a listening gate, chunk newline
  mapping, prefix resynchronisation, suffix-delimited extraction and
  prefix/suffix stripping.
- `normalize_newlines` rewrites every newline form to the canonical `"\r"`.
- There are two keyboard event filters.
- The Qt window holds the policies: config defaults, scan history, the
  scanned-URL decision, and guards on start and stop.
- There are two minimal listeners, one for the command line and one in the
  scanner package.

The Tauri/Rust desktop app:

- The keystroke classifier (`keycode_to_message`).
- The keystroke fold (`process_key_buffer`).
- Mode-driven prefix and suffix stripping and the cleaning step of
  `process_scan`.
- The domain allow/block policy (`check_url`, `check_domain`).
- The configuration record with its defaults and its serde (de)serialisation.

The React settings dialog:

- Adding a domain to a list.
- Deleting a list entry by position.
- The max-history clamp.
- The configuration built on save.

Each module follows one source component:

| file | module | source |
|---|---|---|
| wrappers.dfy | `Wrappers` | `Option`, `Result` |
| strings.dfy | `Strings` | host-language string primitives: `find`, `replace`, `count`, `contains`, `trim`, lower-casing |
| newlines.dfy | `Newlines` | openqr/utils/functions.py |
| frame_assembler.dfy | `ScanFrame` | openqr/core/listener.py |
| key_filters.dfy | `KeyFilters` | openqr/core/keyboard_scanner_event_filter.py, openqr/scanner/scanner_event_filter.py |
| key_stream.dfy | `KeyStream` | src-tauri/src/commands/scan.rs (keystroke half) |
| scan_config.dfy | `ScanConfig` | src-tauri/src/models/config.rs |
| scan_cleaning.dfy | `ScanCleaning` | src-tauri/src/commands/scan.rs (cleaning half) |
| url_policy.dfy | `UrlPolicy` | src-tauri/src/commands/url.rs, src-tauri/src/lib.rs |
| qt_app.dfy | `QtApp` | openqr/qt/app.py |
| settings_form.dfy | `SettingsForm` | src/components/Settings.tsx, src/components/ListSection.tsx |
| simple_listeners.dfy | `SimpleListeners` | openqr/cli/listener.py, openqr/scanner/listener.py |

The central result is `ScanFrame.RoundTrip`. Feeding `prefix + P + suffix` to
a listening `QRListener` one character at a time emits exactly `[P]` and
leaves the buffer empty. The condition is `ScanFrame.WellFramed`:

- the suffix is non-empty;
- the framed input holds no `'\n'`, so no chunk is rewritten;
- the first occurrence of the suffix in the framed input is the final one.

For a one-character suffix the last condition is the same as "the suffix
character occurs in neither the prefix nor P"
(`ScanFrame.SingleCharSuffixFrames`).

"P contains no suffix" on its own is not enough. The suffix can straddle the
end of the prefix and the start of P. `ScanFrame.StraddlingSuffixExample`
shows this with prefix `"xa"`, suffix `"ab"` and P `"b"`: feeding `"xabab"`
emits a single empty payload.

### Where the code and the documented behaviour differ

The model follows the code in each case:

- `KeyboardScannerEventFilter.eventFilter` always returns `False` and appends
  the key text straight to the outer listener's buffer. It never calls
  `feed_data`. The repository's tests in
  tests/core/test_keyboard_scanner_event_filter.py expect `True` and a
  `feed_data` call.
- `QRListener.set_prefix_suffix` stores a `"\n"` suffix as `"\r"`. A test in
  tests/core/test_listener_edge_cases.py expects `"\n"`.
- `process_scanned_data` documents that its data is expected with newlines
  already canonicalised to `"\r"` (openqr/core/listener.py:209). On the Qt
  path the key text goes in verbatim. The global hook appends `"\n"` for
  Enter, which is Finding 2 below.

## Model

| member | source | states |
|---|---|---|
| `Strings.Find` | openqr/core/listener.py:168 | Python `str.find`: -1 exactly when the pattern does not occur; otherwise an occurrence with no earlier one |
| `Strings.Lower` | src-tauri/src/commands/url.rs:43 | lower-casing keeps the length and maps each character through `LowerChar` |
| `Strings.LowerIdempotent` | src-tauri/src/commands/url.rs:13-21 | lower-casing twice is lower-casing once |
| `Strings.TrimWhere` | src-tauri/src/commands/scan.rs:449-451 | trim (Rust `str::trim` / JS `trim` by character set): a slice of the input with only dropped characters outside it and none at its ends |
| `Newlines.NormalizeNewlines` | openqr/utils/functions.py:1-7 | empty input unchanged; no `'\n'` in the output; input without `'\n'` unchanged; length is input length minus the number of `"\r\n"` pairs |
| `Newlines.NormalizeIdempotent` | openqr/utils/functions.py:7 | normalising twice equals normalising once |
| `Newlines.NormalizeNeverGrows` | openqr/utils/functions.py:7 | the output is never longer than the input |
| `Newlines.NormalizeAgreesWithCanon` | openqr/utils/functions.py:7 | the two-pass `replace` chain equals an independent one-pass left-to-right rewrite |
| `Newlines.NormalizeIsCanonical` | openqr/utils/functions.py:7 | the same equivalence, proved by induction over the input |
| `ScanFrame.NewListener` | openqr/core/listener.py:40-59 | empty buffer, not listening; the stored prefix and suffix are exactly the newline-canonical forms (`Canon`: `"\r\n"` and `'\n'` each become `'\r'`) of the arguments; the timer is enabled iff the timeout is positive |
| `ScanFrame.DefaultListener` | openqr/core/listener.py:40 | defaults: prefix `""`, suffix `"\r"`, timeout enabled, not listening |
| `ScanFrame.StartListening` | openqr/core/listener.py:84-91 | sets the flag only when an application instance exists; nothing else changes |
| `ScanFrame.StopListening` | openqr/core/listener.py:101-118 | clears the flag, empties the buffer, stops the timer, keeps the framing |
| `ScanFrame.SetPrefixSuffix` | openqr/core/listener.py:122-131 | the stored prefix and suffix are exactly `Canon` of the new values; nothing else changes |
| `ScanFrame.TimerFires` | openqr/core/listener.py:249-254 | the inactivity timeout empties the buffer and nothing else |
| `ScanFrame.MapChunk` | openqr/core/listener.py:145-146 | a chunk that is exactly `"\n"` or `"\r\n"` becomes `"\r"`; every other chunk, including `"a\n"` or `"\n\n"`, is kept |
| `ScanFrame.PySliceTail` | openqr/core/listener.py:173-175 | Python `s[-k:]`: a suffix of `s`; the whole of `s` when `k == 0` |
| `ScanFrame.Resync` | openqr/core/listener.py:167-180 | as written: buffer cut to start at the first prefix; without a prefix it keeps `len(prefix)-1` chars when the prefix has 2+ chars but the whole buffer for a 1-char prefix |
| `ScanFrame.ResyncBounded` | openqr/core/listener.py:167-180 | corrected: without a prefix at most `len(prefix)-1` trailing chars survive for every non-empty prefix |
| `ScanFrame.ResyncAgreesUnlessSingleChar` | openqr/core/listener.py:171-175 | the two agree for every prefix length other than 1 |
| `ScanFrame.FirstOccurrenceFrame` | openqr/core/listener.py:185-189 | a frame cut just after the first suffix ends with the suffix and contains it nowhere earlier |
| `ScanFrame.ExtractFramesSpec` | openqr/core/listener.py:183-197 | frames in order, each cut at its first suffix; frames concatenated with the rest give the buffer back; the rest contains no suffix |
| `ScanFrame.ProcessScannedData` | openqr/core/listener.py:206-229 | a payload exactly when the data starts with the prefix and ends with the suffix (an empty one requires nothing); the payload is the middle, or empty when the two overlap |
| `ScanFrame.ProcessFramed` | openqr/core/listener.py:214-224 | stripping undoes framing: `prefix + P + suffix` gives `P` |
| `ScanFrame.Emissions` | openqr/core/listener.py:199-204 | at most one payload per extracted frame, each the `process_scanned_data` result of some frame; when every frame is accepted, the i-th emission is the i-th frame's payload; when none is, nothing is emitted |
| `ScanFrame.EmissionsAppend` | openqr/core/listener.py:199-204 | the emissions of two frame lists back to back are the first list's followed by the second's |
| `ScanFrame.FeedWith` | openqr/core/listener.py:139-204 | not listening: nothing changes and nothing is emitted; only buffer and timer change; the timer is re-armed when enabled; an empty suffix emits nothing |
| `ScanFrame.Feed` | openqr/core/listener.py:139-204 | `feed_data` as written, gated by the listening flag |
| `ScanFrame.FeedCorrected` | openqr/core/listener.py:139-204 | `feed_data` with the corrected resynchronisation, same gate |
| `ScanFrame.FeedLeavesNoSuffix` | openqr/core/listener.py:183-194 | with a suffix, the buffer after a feed contains no suffix and is a tail of the synchronised buffer |
| `ScanFrame.FeedUnframedAppends` | openqr/core/listener.py:156-197 | with neither prefix nor suffix, a feed only appends the mapped chunk |
| `ScanFrame.FeedBufferWithinSynced` | openqr/core/listener.py:183-194 | extraction never grows the buffer |
| `ScanFrame.FeedNoiseBound` | openqr/core/listener.py:169-175 | as written, with a prefix of 2+ chars that is absent, at most `len(prefix)-1` chars survive |
| `ScanFrame.FeedCorrectedNoiseBound` | openqr/core/listener.py:169-175 | corrected: the same bound for every non-empty prefix |
| `ScanFrame.FeedAgreesUnlessSingleCharPrefix` | openqr/core/listener.py:171-175 | the written and corrected feeds coincide unless the prefix has exactly one char |
| `ScanFrame.SingleCharPrefixKeepsNoise` | openqr/core/listener.py:171-175 | as written, with a 1-char prefix that is absent, the whole noisy buffer is kept |
| `ScanFrame.SingleCharPrefixExample` | openqr/core/listener.py:171-175 | prefix `"#"`, chunk `"abc"`: the written feed keeps `"abc"`, the corrected one keeps nothing |
| `ScanFrame.ResyncKeepsFramePrefix` | openqr/core/listener.py:167-180 | a partial frame that already starts with the prefix is left alone by resynchronisation |
| `ScanFrame.ExtractWhole` | openqr/core/listener.py:183-194 | a buffer whose first suffix is at its end comes out as one frame with nothing left |
| `ScanFrame.FeedFramePart` | openqr/core/listener.py:139-197 | feeding a strict prefix of a well-framed input only appends and emits nothing |
| `ScanFrame.FeedFrameEnd` | openqr/core/listener.py:139-204 | the chunk that completes a well-framed input emits its payload and empties the buffer |
| `ScanFrame.RoundTripFrom` | openqr/core/listener.py:139-229 | any split of the rest of a well-framed input into chunks emits exactly `[P]` and ends with an empty buffer |
| `ScanFrame.CharChunks` | openqr/core/listener.py:139 | one chunk per character, concatenating back to the input |
| `ScanFrame.RoundTrip` | openqr/core/listener.py:139-229 | character-by-character feeding of `prefix + P + suffix` emits exactly `[P]`, leaving the buffer empty |
| `ScanFrame.RoundTripWholeChunk` | openqr/core/listener.py:139-229 | the same when the framed input arrives as one chunk |
| `ScanFrame.ExtractFramedEach` | openqr/core/listener.py:183-194 | several well-framed inputs back to back are cut into exactly those frames, leaving nothing |
| `ScanFrame.EmissionsFramedEach` | openqr/core/listener.py:199-229 | the frames of well-framed payloads `P1..Pn` emit exactly `[P1..Pn]` |
| `ScanFrame.FeedManyFrames` | openqr/core/listener.py:139-229 | one chunk holding `prefix + Pi + suffix` for well-framed `P1..Pn`, fed to an empty listening buffer, emits `[P1..Pn]` in order and leaves the buffer empty |
| `ScanFrame.TwoMessagesInOneChunk` | openqr/core/listener.py:183-204 | with prefix `"qr_"` and suffix `"\r"`, the chunk `"qr_A\rqr_B\r"` emits `"A"` then `"B"` and leaves nothing buffered |
| `ScanFrame.SingleCharSuffixFrames` | openqr/core/listener.py:183-197 | for a 1-char suffix and newline-free input, well-framed iff that char occurs in neither prefix nor payload |
| `ScanFrame.StraddlingSuffixExample` | openqr/core/listener.py:183-229 | a suffix straddling prefix and payload cuts the frame early: `"xabab"` with prefix `"xa"`, suffix `"ab"` emits one empty payload |
| `KeyFilters.AppendAndFlush` | openqr/core/keyboard_scanner_event_filter.py:65-71 | append, then hand over the whole buffer and empty it exactly when it ends with a non-empty suffix |
| `KeyFilters.AppendAndFlushConserves` | openqr/scanner/scanner_event_filter.py:14-19 | the handed-over data followed by the new buffer is the old buffer plus the text |
| `KeyFilters.AppendAndFlushLeavesNoSuffix` | openqr/core/keyboard_scanner_event_filter.py:67-70 | with a non-empty suffix the buffer never ends with it afterwards |
| `KeyFilters.NewKeyboardFilter` | openqr/core/keyboard_scanner_event_filter.py:9-12 | a new filter is not hooked |
| `KeyFilters.StartHook` | openqr/core/keyboard_scanner_event_filter.py:15-20 | sets the hook flag; installs only when not already hooked |
| `KeyFilters.StopHook` | openqr/core/keyboard_scanner_event_filter.py:22-26 | clears the hook flag; acts only when hooked |
| `KeyFilters.HookIdempotent` | openqr/core/keyboard_scanner_event_filter.py:15-26 | starting or stopping twice equals doing it once |
| `KeyFilters.ProcessFlushed` | openqr/core/keyboard_scanner_event_filter.py:55 | handed-over data yields a payload exactly when it is framed by prefix and suffix, and that payload is the one `process_scanned_data` strips out |
| `KeyFilters.WriteKey` | openqr/core/keyboard_scanner_event_filter.py:64-71 | only the outer buffer changes; the event is never consumed; when buffer plus text ends with a non-empty suffix the buffer is emptied and the whole of it goes to `process_scanned_data`, otherwise the text is appended and nothing is emitted |
| `KeyFilters.EventFilter` | openqr/core/keyboard_scanner_event_filter.py:57-72 | never consumes; inert unless both flags are set; ignores non-key events and empty text; otherwise appends and flushes |
| `KeyFilters.HookKeyText` | openqr/core/keyboard_scanner_event_filter.py:36-48 | single-char names verbatim; `enter`, `tab`, `space` as exactly `"\n"`, `"\t"`, `" "`; every other name ignored |
| `KeyFilters.HookKeyTextCanonical` | openqr/core/keyboard_scanner_event_filter.py:40-41 | corrected mapping: Enter gives the canonical `"\r"`, all else unchanged |
| `KeyFilters.OnKeyEventWith` | openqr/core/keyboard_scanner_event_filter.py:28-55 | inert unless both flags are set and the event is a key-down; only the outer buffer changes |
| `KeyFilters.OnKeyEvent` | openqr/core/keyboard_scanner_event_filter.py:28-55 | `_on_key_event` as written, gated by both flags |
| `KeyFilters.OnKeyEventCanonical` | openqr/core/keyboard_scanner_event_filter.py:28-55 | `_on_key_event` with the corrected Enter mapping, same gate |
| `KeyFilters.OnKeyEventAppends` | openqr/core/keyboard_scanner_event_filter.py:32-55 | an ignored name changes nothing; a mapped name appends its text when that does not complete a frame |
| `KeyFilters.EnterNeverFlushes` | openqr/core/keyboard_scanner_event_filter.py:40-41 | as written, Enter appends `"\n"`, which can never complete the listener's canonical suffix, so nothing is emitted |
| `KeyFilters.CanonicalEnterCompletesFrame` | openqr/core/keyboard_scanner_event_filter.py:40-55 | corrected: Enter after `prefix + P` with suffix `"\r"` emits `[P]` and empties the buffer |
| `KeyFilters.GarbageIsFlushedAway` | openqr/core/keyboard_scanner_event_filter.py:67-71 | a buffer ending with the suffix but not starting with the prefix is emptied and yields nothing |
| `KeyFilters.ScannerEventFilter` | openqr/scanner/scanner_event_filter.py:10-21 | never consumes; non-key events and empty text change nothing; a key press flushes the whole buffer plus text and empties the buffer exactly when that ends with a non-empty scanner suffix, and otherwise appends the text |
| `KeyFilters.FlushedList` | openqr/scanner/scanner_event_filter.py:18-20 | at most one flushed string, exactly when there was data |
| `KeyFilters.ScannerStepConserves` | openqr/scanner/scanner_event_filter.py:12-19 | one event: flushed data plus new buffer is old buffer plus the event's text |
| `KeyFilters.ScannerRunConserves` | openqr/scanner/scanner_event_filter.py:10-21 | over any event sequence, all flushed data in order plus the buffer is the old buffer plus all typed text |
| `KeyFilters.ScannerRunFlushesEndWithSuffix` | openqr/scanner/scanner_event_filter.py:16-20 | every flushed string ends with the scanner suffix |
| `KeyStream.KeycodeToMessage` | src-tauri/src/commands/scan.rs:57-76 | 0x24 and 0x4C are Enter whatever the char, 0x30 is Tab; otherwise a non-control char is `Char` and a control char or none is ignored |
| `KeyStream.StepKey` | src-tauri/src/commands/scan.rs:33-50 | a char is buffered; the trigger key emits a non-empty buffer and clears it; the other key and an empty trigger change nothing |
| `KeyStream.ProcessKeyBuffer` | src-tauri/src/commands/scan.rs:25-52 | the loop computes the left fold of `StepKey` over the messages, with Tab as trigger exactly in mode `"tab"` |
| `KeyStream.RunAppend` | src-tauri/src/commands/scan.rs:33-51 | processing `a + b` is processing `a` then `b` |
| `KeyStream.RunEmitsNoEmptyScan` | src-tauri/src/commands/scan.rs:39-47 | no emitted scan is empty |
| `KeyStream.RunConservesChars` | src-tauri/src/commands/scan.rs:35-49 | emitted scans in order plus the pending buffer are exactly the `Char` payloads in order |
| `KeyStream.OtherKeyIgnored` | src-tauri/src/commands/scan.rs:38-49 | deleting every non-trigger key (Enter in tab mode, Tab otherwise) changes nothing |
| `KeyStream.TypedOnlyBuffers` | src-tauri/src/commands/scan.rs:35-37 | typed characters only extend the buffer |
| `KeyStream.TrailingCharsNotEmitted` | src-tauri/src/commands/scan.rs:33-51 | characters after the last trigger are never emitted |
| `KeyStream.EncodeRoundTrip` | src-tauri/src/commands/scan.rs:25-52 | typing non-empty scans each followed by the trigger key emits exactly those scans and leaves nothing pending |
| `KeyStream.EmissionsBoundedByTriggers` | src-tauri/src/commands/scan.rs:38-49 | there are no more emissions than trigger keys |
| `ScanConfig.DefaultConfig` | src-tauri/src/models/config.rs:31-51 | empty lists, `"json"`, `"single"`, `"toast"`, 100 items, prefix mode `"none"` and suffix mode `"enter"` without values, not closing to tray |
| `ScanConfig.GetOptString` | src-tauri/src/models/config.rs:6-7 | an absent or null optional value reads as None |
| `ScanConfig.GetBoolOrFalse` | src-tauri/src/models/config.rs:27-28 | an absent `close_to_tray` reads as false |
| `ScanConfig.GetU32` | src-tauri/src/models/config.rs:24 | `max_history_items` is accepted exactly when it is a number within `u32` |
| `ScanConfig.DecodeConfig` | src-tauri/src/models/config.rs:17-29 | a decoded configuration came from an object and every field was read from its own key (`FieldsDescribe`); `close_to_tray` is false when its key is absent |
| `ScanConfig.MissingRequiredFieldFails` | src-tauri/src/models/config.rs:17-29 | an object lacking any key other than `close_to_tray` is a decode error |
| `ScanConfig.ConfigRoundTrip` | src-tauri/src/models/config.rs:3-29 | deserialising a serialised configuration gives it back |
| `ScanConfig.MissingOptionalFieldsDefault` | src-tauri/src/models/config.rs:3-29 | a document without `close_to_tray` and without affix values loads with false and None |
| `ScanCleaning.TrimStartMatches` | src-tauri/src/commands/scan.rs:548 | Rust `trim_start_matches`: a tail of the input that does not start with the pattern, the removed part being repetitions of it |
| `ScanCleaning.TrimStartMatchesIdempotent` | src-tauri/src/commands/scan.rs:548 | trimming twice removes nothing more |
| `ScanCleaning.StripOnePrefix` | src-tauri/src/commands/scan.rs:550-554 | Rust `strip_prefix(..).unwrap_or(..)`: `v + result == input` when it starts with `v`, else unchanged |
| `ScanCleaning.StripOneSuffix` | src-tauri/src/commands/scan.rs:572-576 | Rust `strip_suffix(..).unwrap_or(..)`: `result + v == input` when it ends with `v`, else unchanged |
| `ScanCleaning.StripPrefix` | src-tauri/src/commands/scan.rs:545-561 | `"default"` trims every leading `"QR:"`; `"custom"` with a value strips it once; `"none"`, unknown modes and custom without value leave the input |
| `ScanCleaning.StripSuffix` | src-tauri/src/commands/scan.rs:563-583 | `"enter"`/`"newline"` trim trailing `'\n'` then trailing `'\r'`; `"tab"` trims tabs; custom strips once; all else leaves the input |
| `ScanCleaning.CleanScan` | src-tauri/src/commands/scan.rs:448-451 | the cleaned text is the prefix-then-suffix-stripped text with exactly its leading and trailing whitespace removed: a slice of it, with only whitespace outside the slice and none at its ends |
| `ScanCleaning.ProcessScan` | src-tauri/src/commands/scan.rs:441-483 | succeeds exactly when the URL policy accepts the cleaned text; returns the lower-cased host and records the cleaned text; otherwise the policy's error |
| `ScanCleaning.DefaultVersusCustomPrefix` | src-tauri/src/commands/scan.rs:548-554 | `"QR:QR:x"` becomes `"x"` in default mode but `"QR:x"` with custom `"QR:"` |
| `ScanCleaning.EnterSuffixOrder` | src-tauri/src/commands/scan.rs:566-569 | `"x\n\r"` becomes `"x\n"` and `"x\r\n"` becomes `"x"` |
| `ScanCleaning.TrimEndSubsumed` | src-tauri/src/commands/scan.rs:566-570 | trimming a subset of characters before trimming the whole set changes nothing |
| `ScanCleaning.WhitespaceSuffixModesAreTrim` | src-tauri/src/commands/scan.rs:448-451 | in the enter, newline and tab modes the suffix step is absorbed by the final `trim` |
| `ScanCleaning.DefaultCleaningIsTrim` | src-tauri/src/commands/scan.rs:448-451 | with the default configuration cleaning is `trim` alone |
| `ScanCleaning.CustomAffixesStripped` | src-tauri/src/commands/scan.rs:441-451 | with custom prefix `v` and custom suffix `w`, cleaning `v + P + w` gives `trim(P)` |
| `ScanCleaning.NoAffixesIsTrim` | src-tauri/src/commands/scan.rs:441-451 | with both affix modes `"none"` cleaning is `trim` of the raw text |
| `UrlPolicy.NormalizeUrl` | src-tauri/src/commands/url.rs:34-40 | never fails; prepends `"https://"` iff `"://"` is absent; the result always contains `"://"` |
| `UrlPolicy.NormalizeUrlIdempotent` | src-tauri/src/commands/url.rs:34-40 | normalising twice equals normalising once |
| `UrlPolicy.NormalizeList` | src-tauri/src/commands/url.rs:42-44 | same length and order, each entry lower-cased |
| `UrlPolicy.NormalizeListIdempotent` | src-tauri/src/commands/url.rs:42-44 | normalising a list twice equals once |
| `UrlPolicy.MatchesList` | src-tauri/src/commands/url.rs:46-49 | true iff some entry is a substring of the domain or the host; false for an empty list |
| `UrlPolicy.CheckUrl` | src-tauri/src/commands/url.rs:1-32 | the three parse errors in order; Ok iff no lower-cased block entry matches and the allow list is empty or has a match; Ok carries the lower-cased host; a rejection of a parsed URL is `"Domain '<d>' is blocked."` when a block entry matches, otherwise `"Domain '<d>' is not in your allowlist."` |
| `UrlPolicy.BlockTakesPriority` | src-tauri/src/commands/url.rs:23-25 | a matching block entry gives the "blocked" error whatever the allow list holds |
| `UrlPolicy.EmptyListsAllowAll` | src-tauri/src/commands/url.rs:27-31 | with both lists empty every URL with a domain and a host is allowed |
| `UrlPolicy.EmptyBlockEntryBlocksAll` | src-tauri/src/commands/url.rs:46-49 | an empty block-list entry matches everything and rejects every URL |
| `UrlPolicy.ListCaseIrrelevant` | src-tauri/src/commands/url.rs:20-21 | lower-casing the lists first changes no verdict |
| `UrlPolicy.HostCaseIrrelevant` | src-tauri/src/commands/url.rs:10-18 | domains and hosts equal up to case give the same verdict |
| `UrlPolicy.AnyContained` | src-tauri/src/lib.rs:20 | true iff some lower-cased entry is a substring of the domain |
| `UrlPolicy.CheckDomain` | src-tauri/src/lib.rs:2-30 | parse errors first; `"Safe"` iff no lower-cased block entry occurs in the domain and the allow list is empty or has one that does; a rejection of a parsed domain is `"… is explicitly blocklisted."` when a block entry occurs in it, otherwise `"… is not on your allowlist."` |
| `UrlPolicy.CheckDomainIgnoresHost` | src-tauri/src/lib.rs:14-29 | changing or removing the host never changes the verdict |
| `UrlPolicy.CheckDomainAgreesWithCheckUrl` | src-tauri/src/lib.rs:2-30 | when the host is the domain, both checks accept exactly the same URLs |
| `QtApp.LoadConfig` | openqr/qt/app.py:95-124 | each missing key gets its default (`""`, `"\r"`, `[]`, `[]`, None, True); only the two defaulted keys are written back, and present values are kept |
| `QtApp.LoadConfigStable` | openqr/qt/app.py:107-124 | loading the written-back config again changes nothing |
| `QtApp.EmptyConfigDefaults` | openqr/qt/app.py:107-112 | an empty config gives the documented defaults |
| `QtApp.AddToHistory` | openqr/qt/app.py:715-719 | exactly one entry appended at the end; the earlier entries unchanged |
| `QtApp.ClearHistory` | openqr/qt/app.py:750-753 | the history becomes empty |
| `QtApp.TrimHistory` | openqr/qt/app.py:786-790 | the result is the last `max` entries in order; a list already short enough is unchanged |
| `QtApp.NewestSurvivesTrim` | openqr/qt/app.py:786-790 | after appending and trimming to a positive size the newest scan is last |
| `QtApp.HistoryLine` | openqr/qt/app.py:708-713 | the line is the timestamp, then `" - "`, then the URL |
| `QtApp.CopiedUrl` | openqr/qt/app.py:721-725 | when `" - "` occurs, exactly the text after its first occurrence; otherwise all of the text |
| `QtApp.SeparatorAfterTimestamp` | openqr/qt/app.py:713-725 | the first `" - "` of a line is the one after a timestamp that splits cleanly |
| `QtApp.HistoryLineRoundTrip` | openqr/qt/app.py:708-725 | copying from a history line gives back the URL, whatever the URL contains |
| `QtApp.TimestampSplitsCleanly` | openqr/qt/app.py:716 | every `"%Y-%m-%d %H:%M:%S"` timestamp splits cleanly |
| `QtApp.OnUrlScanned` | openqr/qt/app.py:603-692 | invalid or deny-listed: nothing recorded or opened; otherwise recorded once and opened iff allow-listed, auto-open, or the user agrees; the allow list gains the domain exactly when the dialog was shown, answered yes with "don't ask again", and the domain was absent; otherwise it is unchanged |
| `QtApp.ScannedKeepsAllowListDistinct` | openqr/qt/app.py:678-683 | the allow list never gains a duplicate |
| `QtApp.ScannedRecordedAtMostOnce` | openqr/qt/app.py:609-641 | a scan is recorded once or not at all, and an unrecorded one is never opened |
| `QtApp.AppStartListening` | openqr/qt/app.py:487-492 | starts only a listener that is not listening; the result listens |
| `QtApp.AppStopListening` | openqr/qt/app.py:494-499 | stops (and so empties) only a listening listener; one not listening is untouched |
| `QtApp.ListenGuardsIdempotent` | openqr/qt/app.py:487-499 | pressing start or stop twice acts once |
| `SettingsForm.OpenForm` | src/components/Settings.tsx:17-29 | every field of the dialog (scan mode, notification type, affix modes, close-to-tray and the rest) starts from the configuration; absent affix values show as `""` |
| `SettingsForm.AddItem` | src/components/Settings.tsx:46-61 | an empty or already-listed candidate changes nothing; otherwise it is appended to the chosen list only and the input is cleared |
| `SettingsForm.AddItemKeepsListsWellFormed` | src/components/Settings.tsx:50-59 | duplicate-free, disjoint lists stay so |
| `SettingsForm.AddedEntryIsNormal` | src/components/Settings.tsx:47-48 | an added entry is non-empty, lower-case and trimmed |
| `SettingsForm.RemoveAt` | src/components/ListSection.tsx:18 | an in-range index removes exactly that position; an out-of-range index changes nothing |
| `SettingsForm.RemoveAtByPosition` | src/components/ListSection.tsx:18 | one entry fewer, and as a multiset only that occurrence is gone |
| `SettingsForm.RemoveKeepsListsWellFormed` | src/components/ListSection.tsx:18 | deleting keeps the lists duplicate-free and disjoint |
| `SettingsForm.ClampMaxHistory` | src/components/Settings.tsx:186-188 | always at least 1; a parsed value of at least 1 is kept; NaN, 0 and negatives give 1 |
| `SettingsForm.ClampStable` | src/components/Settings.tsx:186-188 | clamping a clamped value changes nothing |
| `SettingsForm.SavedValue` | src/components/Settings.tsx:84-91 | a value is saved iff the mode is `"custom"` |
| `SettingsForm.HandleSave` | src/components/Settings.tsx:76-95 | the edited fields (including scan mode, notification type and close-to-tray) replace the configuration's and the rest is carried over; affix values only in custom mode |
| `SettingsForm.OpenThenSave` | src/components/Settings.tsx:76-95 | opening and saving at once gives the configuration back |
| `SimpleListeners.NewCliListener` | openqr/cli/listener.py:12-16 | empty buffer, not listening, prefix and suffix as given |
| `SimpleListeners.DefaultCliListener` | openqr/cli/listener.py:12 | both framing strings default to `""` |
| `SimpleListeners.CliStart` | openqr/cli/listener.py:21-22 | sets the flag and nothing else |
| `SimpleListeners.CliStop` | openqr/cli/listener.py:27-28 | clears the flag and leaves the buffer alone |
| `SimpleListeners.CliListen` | openqr/cli/listener.py:31-33 | changes no state |
| `SimpleListeners.CliSetPrefixSuffix` | openqr/cli/listener.py:35-37 | both values stored verbatim |
| `SimpleListeners.CliStartStopIdempotent` | openqr/cli/listener.py:21-28 | start and stop are idempotent; stopping keeps the buffer |
| `SimpleListeners.CliKeepsNewlinesVerbatim` | openqr/cli/listener.py:35-37 | a `"\r\n"` suffix is kept verbatim, where the Qt listener stores `"\r"` |
| `SimpleListeners.NewScannerListener` | openqr/scanner/listener.py:6-10 | empty buffer, not listening |
| `SimpleListeners.ScannerApply` | openqr/scanner/listener.py:12-18 | start sets, stop clears the flag; the buffer is untouched |
| `SimpleListeners.ScannerFlagIsLastCall` | openqr/scanner/listener.py:12-18 | after any run of calls the flag is the last call's |

## Left out

- Qt threading and scheduling are out of scope because they are concurrency. This covers `QMutex`, the queued `invokeMethod` install and removal of event filters, `QTimer` scheduling, and signal dispatch. Each call is atomic here, the emitted URLs are returned as a list, and the timer is a flag.
- The key-event hook's return value (`None` or `False`) is not modelled, because nothing reads it.
- Nothing in the sources creates a `ScannerEventFilter`, so the receiver of its `qr_code_listener` call is unknown. What the filter hands over is returned as flushed data.
- `stop_after_first_scan` is out because `QRListener` accepts no such argument and defines no such method.
- The Rust OS keyboard hooks are out because they are foreign calls and threads. This covers the CGEventTap FFI, the rdev fallback, `mpsc` channels, threads and the `AtomicBool` start/stop. `process_key_buffer` takes the received messages as a sequence, and returns the scans in place of calling `on_scan`.
- URL parsing is a parameter, because it is a foreign library. This covers `url::Url::parse`, `domain()`, `host_str()`, Python's `validators.url` and `urlparse`.
- The clock is a parameter (the timestamp passed in), because it is I/O.
- Persistence is out because it is I/O. This covers `add_scan_internal`, the history store, config files, the clipboard and the browser call.
- The serde model covers only the JSON shapes this record uses.
- `ScanCleaning.ProcessScan` stops before the history write, because that write is I/O. It does not state that a failed write turns into an error.
- `Strings.Lower` lower-cases ASCII letters only. The source uses the full Unicode mapping (Python `lower`, Rust `to_lowercase`, JS `toLowerCase`), and Unicode case tables are not modelled.
- `Strings.TrimWhere` uses exact character sets: Unicode White_Space for Rust `trim`, and ECMAScript WhiteSpace plus LineTerminator for JS `trim`. The Unicode Zs category is written out as a fixed list.
- `ScanFrame.Feed` and `ScanFrame.FeedCorrected` state only the listening gate in their own contracts. Their framing behaviour is stated by the lemmas about `ScanFrame.FeedWith`, which both are defined by.
- `QtApp.OnUrlScanned` takes the dialog's answer as a parameter and covers no dialog or message-box rendering, because those are UI.
- `QtApp.TrimHistory` takes `max` as a `nat`. The Qt spin box never goes below 1, and a negative bound would make Python's `pop(0)` fail on the empty list.
- `SettingsForm.HandleSave` turns a `max_history_items` outside `u32` into an error. This is what the Rust command receiving the configuration would do; the dialog itself does not check it.
- UI rendering, the QR generator, image decoding, the tray icon, logging and the CLI front end are out because they are UI, foreign libraries or floating-point graphics.

## Findings

| source | as written | input that shows it | evidently intended | confidence | as-written member | corrected member |
|---|---|---|---|---|---|---|
| openqr/core/listener.py:171-175 | `max_keep = len(prefix) - 1` and `buf[-max_keep:]`; for a 1-char prefix `max_keep` is 0 and `buf[-0:]` is the whole buffer | prefix `"#"`, suffix `"\r"`, feed `"abc"`: the buffer stays `"abc"` instead of becoming empty | with no prefix in the buffer, keep at most `len(prefix)-1` trailing characters, so none for a 1-char prefix | not executed | `ScanFrame.SingleCharPrefixExample` | `ScanFrame.FeedCorrectedNoiseBound` |
| openqr/core/keyboard_scanner_event_filter.py:40-41 | the global hook appends `"\n"` for Enter, but the listener's suffix is always newline-normalised and never contains `'\n'` | suffix `"\r"`, buffer `prefix + P`, Enter pressed: nothing is emitted and the buffer becomes `prefix + P + "\n"` | Enter appends the canonical `"\r"`, completing the frame | not executed | `KeyFilters.EnterNeverFlushes` | `KeyFilters.CanonicalEnterCompletesFrame` |
