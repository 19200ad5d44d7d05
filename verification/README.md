# Tasmotizer core in Dafny

Tasmotizer is a desktop tool that flashes Tasmota firmware onto ESP8266
devices over a serial port, and can then send a first configuration to the
device. Almost all of it is Qt plumbing. This project models the pure logic
inside that plumbing as functions over strings and sequences, and proves
properties of it:

- **Flashing worker** (`flash_worker.dfy`, module `FlashWorker`). Models
  `ESPWorker.execute` and `stop`. The worker builds the esptool argument
  lists for the backup stage and the write stage from the port, the image
  path, the backup/erase/verify flags and the current time. Each stage is
  gated by the worker's continue flag. Signals (`backup_start`,
  `port_error`, `finished`) and esptool calls are recorded as one event
  trace.
- **Image selection** (`image_selection.dfy`, module `ImageSelection`).
  - Release-feed and development-feed records become combo-box entries
    whose data is `"<otaurl>;<file name>"`.
  - The flashing dialog splits that string back into URL and file name.
  - The development file name and the release label use Python's
    character-set `rstrip` / `lstrip`.
  - Sizes are shown in kB by floor division.
  - Download progress is integer arithmetic.
  - In local-file mode, flashing starts only when a file was chosen.
- **Boot-log IP scanner** (`ip_scanner.dfy`, module `IpScanner`). Models
  `showCurrentIP`. The previous chunk and the new chunk are joined, every
  `"\r\n"` is removed, and the text is searched for
  `IP address \d{1,3}\.\d{1,3}\.\d{1,3}\.\d{1,3}` with `re.search`
  semantics: leftmost match, greedy last group. The search is specified
  independently by `MatchesAt` / `Greedy`.
- **Configuration commands** (`send_config.dfy`, module `SendConfig`).
  - The `configs` table is data.
  - `collect_and_save`: required fields, defaults omitted, labels always
    sent, `"<name> <value>"` commands.
  - `toggle_item_check`.
  - `SendConfigDialog.accept`, with `restart 1` appended.
  - The single `backlog a; b; ...\n` line that `send_config` writes.
- **Port list order** (`ports.dfy`, module `Ports`). The port names are
  listed as `reversed(sorted(...))` under Python's string order.
- `strings.dfy` (module `Strings`) holds the Python string behaviour the
  rest relies on: `str(int)`, zero padding, `split` / `join` on one
  character, and character-set `rstrip` / `lstrip`. Each comes with its
  round-trip lemmas.

Inputs stand in for everything external:
- esptool is a function from an argument list to an outcome. It returns;
  or it raises a `FatalError` or `SerialException`, which `execute` catches
  and reports as `port_error` with the message; or it raises anything else,
  which `execute` does not catch, so the run ends after that call.
- `datetime.now()` is an `Instant`.
- A `stop()` that arrives between the two stage gates is a boolean.
- Serial chunks, feed records, widget contents and byte counts are
  parameters.

Behaviour of the code worth noting:
- A failed backup does not prevent the write; `port_error` does not clear
  the continue flag.
- The worker itself emits only `backup_start` as a stage signal. The
  per-stage start, progress and finished signals that the flashing dialog
  shows (`read_start`, `erase_start`, `write_start` and the rest) come from
  esptool's global `sw` object, which is not part of this model.
- Erase and verify are flags of the single write call, not stages of their
  own.
- `updateBinProgress` divides by `total` even when it is 0.
- Nothing stops `execute` from being run twice.

## Model

| member | source | states |
|---|---|---|
| FlashWorker.NewWorker | tasmotizer.py:42-51 | a new worker may run (continue flag set) and keeps the port, image path and flags it was given |
| FlashWorker.Stop | tasmotizer.py:84-87 | `stop()` clears the continue flag and changes nothing else |
| FlashWorker.BackupCommand | tasmotizer.py:56-61 | the backup call is the 6-argument base (chip, port, 115200 baud), then `--after no_reset read_flash 0x00000 0x100000`, then the timestamped file name: 12 arguments |
| FlashWorker.WriteCommand | tasmotizer.py:56-75 | the write call is the base, then `--after soft_reset write_flash --flash_mode dout --flash_size 1MB 0x00000 <image>`, with one extra argument per set erase/verify flag |
| FlashWorker.WriteCommandDecodes | tasmotizer.py:58-75 | the write command decodes back to port, image, erase and verify: `--erase-all` is present iff erasing, `verify` iff verifying, and `--erase-all` comes first |
| FlashWorker.BackupNameRoundTrip | tasmotizer.py:57 | `backup_%Y%m%d_%H%M%S.bin` has the fixed 26-character pattern and the instant reads back from it, so different seconds give different files |
| FlashWorker.BackupCommandNamesInstant | tasmotizer.py:57-61 | the last argument of the backup call names the instant it was built from |
| FlashWorker.Execute | tasmotizer.py:54-81 | the calls issued are the backup command iff backup is set and the flag holds, then the write command iff the flag still holds and the backup call did not raise an uncaught exception; the `port_error` messages are exactly the messages of the calls that raised a caught exception, in order |
| FlashWorker.ExecuteSignals | tasmotizer.py:60-81 | `finished` is emitted iff the write ran and returned; `backup_start` is emitted iff the backup ran, and is immediately followed by the backup call |
| FlashWorker.ExecuteOrdering | tasmotizer.py:63-81 | `finished` is the last event, right after the write call; every `port_error` comes right after the call that raised its message; a call raising an uncaught exception is the last event |
| FlashWorker.EscapedBackupEndsRun | tasmotizer.py:60-69 | when the backup call raises an exception `execute` does not catch, the run is `backup_start` and that call, with no write |
| FlashWorker.BackupStageOrder | tasmotizer.py:63-67 | in the backup stage each `port_error` follows the call that raised it and an uncaught raise ends the stage; without one the stage holds no escaping call |
| FlashWorker.WriteStageOrder | tasmotizer.py:77-81 | in the write stage `finished` is last and right after the write call; each `port_error` follows the call that raised it; an uncaught raise is last |
| FlashWorker.AttemptOrder | tasmotizer.py:63-81 | one guarded call starts with that call, and its `finished`, `port_error` and uncaught raise sit right after it |
| FlashWorker.BackupStageFacts | tasmotizer.py:60-67 | the backup stage calls esptool with the backup command iff backup is set and the flag holds; `backup_start` comes iff it runs, right before that call; it never emits `finished` |
| FlashWorker.WriteStageFacts | tasmotizer.py:69-81 | the write stage calls esptool with the write command iff the flag holds, emits `finished` iff that call returns, and never `backup_start` |
| FlashWorker.AttemptFacts | tasmotizer.py:63-81 | one stage makes exactly one call; a caught raise yields exactly one `port_error` with its message; `finished` only on a normal return of the write |
| FlashWorker.StoppedWorkerDoesNothing | tasmotizer.py:60-87 | after `stop()` no stage begins: no signal and no esptool call |
| FlashWorker.BackupErrorDoesNotBlockWrite | tasmotizer.py:60-78 | a backup that raises is reported, and the write command is still issued after it |
| ImageSelection.SizeKb | tasmotizer.py:417 | the shown size `filesize // 1024` is the floor: `kb*1024 <= filesize < kb*1024 + 1024` |
| ImageSelection.FloorDiv | tasmotizer.py:165 | Python `//` rounds toward negative infinity, for either sign of divisor |
| ImageSelection.SplitData | tasmotizer.py:139-141 | splitting the entry's data yields a URL and file name iff it contains `;` (otherwise indexing `[1]` raises); neither part contains `;` |
| ImageSelection.DataStringSplitsBack | tasmotizer.py:418 | `"{otaurl};{file}"` splits back into the URL, when it has no `;`, and the file name up to its first `;` |
| ImageSelection.ReleaseItemSplitsBack | tasmotizer.py:416-418 | a release entry's data gives back its own URL and binary name |
| ImageSelection.DevItemSplitsBack | tasmotizer.py:429-432 | a development entry's data gives back its URL and the dev file name |
| ImageSelection.ProcessRelease | tasmotizer.py:414-419 | a non-empty image list replaces the entries one per image, in order, and enables the box; an empty one leaves the box unchanged |
| ImageSelection.DevItems | tasmotizer.py:428-432 | one entry per image of every core |
| ImageSelection.DevItemsAt | tasmotizer.py:428-432 | the entry for image `k` of core `i` is that image's development entry, placed right after the entries of all earlier cores |
| ImageSelection.ProcessDevelopment | tasmotizer.py:425-433 | a non-empty core map replaces the entries, one per image, core by core and image by image in feed order, and enables the box; an empty one leaves it unchanged |
| ImageSelection.ReleaseLabelDropsTag | tasmotizer.py:413 | `release-<number>` is labelled `Release <number>` when the number does not start with a letter of `release-` |
| ImageSelection.ReleaseLabelStripsCharacters | tasmotizer.py:413 | `lstrip` strips a character set: letters of the set after the tag go too (`release-alpha` gives `Release pha`) |
| ImageSelection.DevFileNameReplacesSuffix | tasmotizer.py:432 | `<stem>.bin` becomes `<stem>-dev-<version>-<commit>.bin` when the stem does not end in `.`, `b`, `i` or `n` |
| ImageSelection.DevFileNameStripsCharacters | tasmotizer.py:432 | `rstrip(".bin")` strips a character set: `tasmota-mini.bin` gives `tasmota-m-dev-...` |
| ImageSelection.BinProgressAsWritten | tasmotizer.py:164-165 | as written, `recv // total * 100` fails (ZeroDivisionError) iff `total == 0` |
| ImageSelection.BinProgressAsWrittenJumps | tasmotizer.py:165 | as written, the bar shows 0 for every `0 <= recv < total` and 100 at `recv == total` |
| ImageSelection.BinProgressAsWrittenHalfway | tasmotizer.py:165 | half of a 1024-byte download shows 0 as written and 50 when corrected |
| ImageSelection.BinPercent | tasmotizer.py:164-165 | the corrected percentage is the floor of `recv*100/total`, lies in 0..100 during a download, and is undefined iff the total is unknown or zero |
| ImageSelection.BinPercentMonotone | tasmotizer.py:165 | the corrected percentage never decreases as bytes arrive, and equals the as-written value at 0 and at completion |
| ImageSelection.StartProcess | tasmotizer.py:456-469 | in file mode an empty path starts nothing and a non-empty one is flashed as is; in feed mode a download starts iff an entry is selected and its data contains `;`, and it fetches the URL before the first `;` into the file name after it; otherwise the dialog cannot be built (no selection, or data without `;`) |
| ImageSelection.StartFromEntry | tasmotizer.py:139-141 | in either feed mode, an entry built from a URL and a file name without `;` downloads exactly that URL into that file |
| ImageSelection.StartFromReleaseItem | tasmotizer.py:139-141 | choosing a release entry downloads that image's URL into its binary name |
| ImageSelection.StartFromDevItem | tasmotizer.py:139-141 | choosing a development entry downloads that image's URL into its dev file name |
| IpScanner.DotGroupSound | tasmotizer.py:503 | a `\d{1,3}\.` taken off the front is 1-3 digits, and the text is that group, the dot and the rest |
| IpScanner.LastGroupSound | tasmotizer.py:503 | the final `\d{1,3}` is 1-3 digits at the front of the text and stops only at three digits or before a non-digit |
| IpScanner.QuadAtStartSound | tasmotizer.py:503 | a reported quad is four 1-3 digit groups the text starts with, and its last group is greedy |
| IpScanner.QuadAtStartComplete | tasmotizer.py:503 | any text starting with a dotted quad is recognised with the same first three groups, and with exactly that quad when its last group is greedy |
| IpScanner.IpAtSound | tasmotizer.py:503 | what is reported at a position is a match of the pattern there, and the greedy one |
| IpScanner.IpAtComplete | tasmotizer.py:503 | wherever the pattern matches, a match is reported there, and for the greedy match it is exactly that |
| IpScanner.SearchFrom | tasmotizer.py:503 | a position found lies at or after the start and the pattern matches there |
| IpScanner.SearchFromLeftmost | tasmotizer.py:503 | no position between the start and the one found matches; when none is found, no position from the start on matches |
| IpScanner.SearchIsLeftmostMatch | tasmotizer.py:503 | `re.search` semantics: a reported address is the greedy match at the leftmost matching position; no report means the pattern matches nowhere |
| IpScanner.LineBreakVanishes | tasmotizer.py:501 | `replace("\r\n", "")` removes a line break between two texts without touching either text |
| IpScanner.NoCarriageReturnUnchanged | tasmotizer.py:501 | text without `\r` passes through the replacement unchanged |
| IpScanner.OnReadyRead | tasmotizer.py:498-508 | on a match the port closes and the status reads `Device IP: a.b.c.d`; otherwise only the carried chunk changes, to the current chunk |
| IpScanner.SplitAcrossTwoChunks | tasmotizer.py:500-506 | a line split over two consecutive chunks, even at its line break, is found and the port closed |
| IpScanner.ShortTextNeverMatches | tasmotizer.py:503 | text shorter than the prefix plus seven characters never matches |
| IpScanner.QuietChunk | tasmotizer.py:500-508 | a chunk that cannot complete a match only replaces the carried chunk; the port stays open |
| IpScanner.ThreeChunkSplitIsMissed | tasmotizer.py:500-508 | only one chunk is carried: `IP ad` / `dress 1` / `.2.3.4` leaves the port open |
| SendConfig.Collect | sendconfig.py:204-214 | the value read per widget: spin box number, module data, check box 1/0, template text without trailing newlines, otherwise the text |
| SendConfig.CollectFrom | sendconfig.py:201-229 | at most one command per field |
| SendConfig.CollectFromFails | sendconfig.py:216-217 | collecting fails iff some required field is falsy, and then with the detail `"<section> setting missing"`, `"<desc> is required."` of the first such field |
| SendConfig.CollectFromCommands | sendconfig.py:219-220 | on success the output holds the command of every field whose value differs from its default or that is a label, and nothing else |
| SendConfig.CommandsInFieldOrder | sendconfig.py:202-229 | the commands are a subsequence of the fields' commands in table order |
| SendConfig.CollectStep | sendconfig.py:216-220 | a field that is not missing adds its command in front of the later ones iff it emits |
| SendConfig.MissingStep | sendconfig.py:216-217 | a missing field stops the collection with its own detail |
| SendConfig.ConfigsTable | sendconfig.py:10-147 | across the whole table, every check box has no default and every label is optional with a text default |
| SendConfig.RecoveryLabelsAlwaysSent | sendconfig.py:32-46 | the two Recovery WiFi labels are always sent, even at their defaults |
| SendConfig.CheckBoxCommand | sendconfig.py:209-220 | a check box without a default always yields `<name> 1` or `<name> 0` |
| SendConfig.CheckBoxesAlwaysSent | sendconfig.py:132-146 | the SetOptions section always sends its three options as 1/0, in order |
| SendConfig.HostnameRequired | sendconfig.py:11-17 | an empty host name fails with `Hostname setting missing` / `Hostname is required.` |
| SendConfig.DefaultPortOmitted | sendconfig.py:77-80 | an MQTT port left at 1883 is not sent |
| SendConfig.WifiMissing | sendconfig.py:19-24 | an empty AP1 fails the WiFi section with its detail |
| SendConfig.HostCollected | sendconfig.py:11-17 | a non-empty host name is sent as `hostname <text>` |
| SendConfig.WifiCollected | sendconfig.py:19-30 | filled-in WiFi fields send `ssid1 <text>` then `password1 <text>` |
| SendConfig.Toggle | sendconfig.py:271-276 | unchecked becomes checked and everything else unchecked; the result is never partial |
| SendConfig.ToggleTwice | sendconfig.py:271-276 | toggling twice restores a checked or unchecked row, and turns a partially checked one into checked |
| SendConfig.ToggleRow | sendconfig.py:271-276 | a double click toggles that row and no other |
| SendConfig.ExtendIsAppendGathered | sendconfig.py:280-287 | the accept loop appends the checked rows' commands, in row order, up to the first missing detail |
| SendConfig.AcceptAsWritten | sendconfig.py:278-295 | the earlier list is kept; on a missing detail, the commands gathered before it stay and the detail is shown; otherwise a non-empty list gets `restart 1` and the dialog accepts, and an empty one warns |
| SendConfig.AcceptedEndsWithRestart | sendconfig.py:288-290 | an accepted list ends with `restart 1`, preceded by exactly the earlier commands and the gathered ones, at least one of them |
| SendConfig.UncheckedRowIgnored | sendconfig.py:280-287 | removing an unchecked row changes nothing that is gathered |
| SendConfig.NothingCheckedNothingSent | sendconfig.py:280-292 | with no row checked, a fresh dialog warns and sends nothing |
| SendConfig.FirstAccept | sendconfig.py:280-295 | host name checked and valid, WiFi missing: the list keeps `hostname ...` and the WiFi detail is shown |
| SendConfig.SecondAccept | sendconfig.py:280-290 | host name unchecked, WiFi filled in: the WiFi commands and `restart 1` are appended to whatever the list held |
| SendConfig.StaleCommandsResent | sendconfig.py:238-295 | as written, after that error and fix the unchecked host name is still sent |
| SendConfig.AcceptFresh | sendconfig.py:278-295 | with the list started afresh, the outcome is exactly the gathered commands of the rows checked now (plus `restart 1`) |
| SendConfig.FreshAcceptSendsOnlyCheckedRows | sendconfig.py:280-287 | with the fresh list, removing an unchecked row does not change what is sent |
| SendConfig.FreshAcceptScenario | sendconfig.py:280-290 | with the fresh list, the same error-and-fix sequence sends only the WiFi commands |
| SendConfig.BacklogLine | tasmotizer.py:446-447 | the line written starts with `backlog ` and ends with a newline |
| SendConfig.SplitBacklogBody | tasmotizer.py:446 | splitting the joined commands at `;` gives each command back, all but the first with the space of `"; "` in front |
| SendConfig.UnspaceSpaced | tasmotizer.py:446 | dropping that one leading space restores the commands |
| SendConfig.BacklogRoundTrip | tasmotizer.py:446-447 | `backlog a; b; ...\n` splits back into exactly the commands, for a non-empty list of commands without `;` |
| Ports.LessIrreflexive | tasmotizer.py:379 | no name sorts before itself |
| Ports.LessAsymmetric | tasmotizer.py:379 | two names never sort before each other |
| Ports.LessTotal | tasmotizer.py:379 | two different names are always ordered |
| Ports.LessTransitive | tasmotizer.py:379 | the string order is transitive |
| Ports.Insert | tasmotizer.py:379 | inserting into a descending list keeps it descending and adds exactly the name |
| Ports.ReverseSorted | tasmotizer.py:379 | the listed names are the available ones (as a multiset), each at least the next |
| Ports.DescendingUnique | tasmotizer.py:379 | two descending lists of the same names are equal, so the descending order is unique |
| Ports.EnumerationOrderIrrelevant | tasmotizer.py:377-381 | the list order depends only on which ports exist, not on the order they are reported in |
| Strings.ZeroPad | tasmotizer.py:57 | `%m`-style padding: digits only, reads back as the number, exactly the width when the number fits |
| Strings.IntToStringRoundTrip | tasmotizer.py:418 | `str(int)` reads back as the same int |
| Strings.JoinSplit | tasmotizer.py:140-141 | joining the parts of `split(c)` with `c` gives back the text |
| Strings.SplitJoin | tasmotizer.py:446 | splitting a join of parts without the separator gives back the parts |
| Strings.RStrip | tasmotizer.py:432 | `rstrip(chars)` removes the longest tail drawn from the set and keeps a prefix |
| Strings.LStrip | tasmotizer.py:413 | `lstrip(chars)` removes the longest head drawn from the set and keeps a suffix |
| Strings.RStripExactTail | tasmotizer.py:432 | `rstrip` removes exactly a tail from the set when the text before it does not end in the set |
| Strings.LStripExactHead | tasmotizer.py:413 | `lstrip` removes exactly a head from the set when the text after it does not start with the set |

## Left out

- Qt widgets, layouts, dialogs, message boxes and window dragging: presentation only.
- Threads, signal/slot connections and the `wait(2000)` in the flashing dialog: concurrency glue. A `stop()` racing with `execute` is modelled only as the `stopBetween` input.
- esptool internals and its global `sw` object: a foreign library, modelled as an outcome function. This covers `sw.setContinueFlag` in `execute` and `stop` and the dialog's per-stage signals wired at tasmotizer.py:96-107.
- Network requests, feed fetching and JSON decoding: feed records and byte counts are inputs.
- Serial port open/read/write/flush, port enumeration and each item's system location: device I/O. The number of bytes reported by `send_config` is not modelled.
- Writing the downloaded image to disk (`saveBinFile`): file I/O.
- `keyring` and `QSettings` persistence, including the saved check states and `templates.txt`: external stores. Widget contents are inputs.
- The erase timer's cosmetic progress ticks: timer-driven display only.
- UTF-8 decoding in `showCurrentIP`: chunks are modelled as decoded text. A multi-byte character split across chunks raises there, and the bare `except` swallows the error without updating the carried chunk.
- `\d` in Python's `re` also matches non-ASCII decimal digits. The model accepts ASCII digits only.
- FlashWorker.DatePart: years are padded to four digits for the whole `datetime` range 1..9999; `%Y` for years below 1000 depends on the platform's C library.
- `print(command)` in `execute`: console output only.
- ImageSelection.StartProcess: the dialog construction that follows, including reading `parent.bin_file` in file mode, is reduced to the launch decision.

## Findings

| source | as written | input that shows it | evidently intended | confidence | as-written member | corrected member |
|---|---|---|---|---|---|---|
| tasmotizer.py:165 | `recv//total*100` divides before multiplying | `recv = 512, total = 1024` shows 0 | `recv*100//total`, 50 | high; not executed | ImageSelection.BinProgressAsWrittenHalfway | ImageSelection.BinPercent |
| sendconfig.py:238 | `self.commands` is filled by `accept` and never cleared, so a missing-detail error leaves earlier sections' commands in the list | Hostname checked with text, WiFi checked with empty AP1; then uncheck Hostname, fill AP1 and accept: `hostname ...` is still sent | start the list afresh on every accept | medium; not executed | SendConfig.StaleCommandsResent | SendConfig.AcceptFresh |
