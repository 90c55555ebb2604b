# rofi-cliphist, modelled in Dafny

`rofi-cliphist` shows the clipboard history kept by `cliphist` in the
`rofi` chooser. It has two lists, one of texts and one of images, and
switches between them with custom key bindings. Other bindings delete
entries from the history: the highlighted entry, every entry above it, or
every entry below it. Choosing an entry copies its stored payload to the
clipboard. Before every display, a thumbnail cache directory is brought in
line with the image entries of a fresh history listing.

This project models the four pieces of logic between the chooser, the
history store and the cache.

- `Cliphist` (`cliphist.dfy`) is the history store adapter. It parses
  listing lines `<digits>\t<value>`. The image pattern
  `^(\[\[\s)?binary.*(jpg|jpeg|png|bmp)` is written out as string
  functions, including the greedy backtracking that picks the rightmost
  extension. The listing pipeline splits the output, drops empty lines
  and parses every line. The file also covers the cache key of an entry
  and the framing of ids sent to `cliphist delete` and `cliphist decode`.
  The store process is a class that answers from fixed tables and logs
  every request it receives.
- `Cache` (`cache.dfy`) is the thumbnail cache. It is a class whose
  directory is a `map` from file name to bytes. `add` overwrites one
  file. `prune` deletes, one by one, every file that is not kept, and
  counts them. The path of the cache directory is the fold of
  `PathBuf::join` over the `/`-separated hierarchy.
- `Rofi` (`rofi.dfy`) is the chooser adapter:
  - the options, their defaults and their argument vector, built push by
    push;
  - the error display used when there are no entries;
  - the entry lines written to the chooser's standard input, where an
    image's icon resolves to the cached file when the cache holds it;
  - the decoding of the chooser's exit status and output into a result.
- `CliphistMode` (`cliphist_mode.dfy`) is the mode itself:
  - `new` splits the listing into the two lists and sets up each list's
    options;
  - one iteration of `run` synchronises the cache, shows the list on
    screen and reacts to the answer.

  The behaviour is specified by functions over values: `Start`, `Next`,
  `Sync`, `Step`, and `Drive` for a finite script of answers. The class
  `ClipHistMode` does the same work step by step on its fields and on the
  store, cache and clipboard objects. Each of its methods is proved
  against the matching function.
- `Clipboard` (`clipboard.dfy`) is a sink that records every payload it
  is given.
- `Strings` and `Wrappers` supply what the program gets from Rust's
  standard library: `split`, decimal formatting, `Option` and `Result`.

The outside world becomes parameters:

- the history listing, as `Listing`;
- the store's decode payloads and the ids it refuses to delete, as the
  fields of `ClipHist`;
- the chooser's exit status and output, as `ExitStatus` and a string;
- the cache directory's contents, as the `files` map.

A Rust panic is the error `Abort`. Examples are `Vec::remove` or
`Vec::drain` out of range, and a selected row past the end of the list.

The chooser maps custom binding slot `N` to exit code `9 + N`. That is
rofi's own convention, not part of this program. It is stated once, as
`CUSTOM_EXIT_BASE`, and used only by `BindingCodes` and
`BoundKeysHandled`.

## Model

| member | source | states |
|---|---|---|
| Strings.Split | src/cliphist.rs:51-53 | `str::split` on one character yields at least one piece, and no piece contains the separator |
| Strings.JoinSplit | src/cache.rs:76-78 | splitting on a separator loses nothing: joining the pieces with it gives the input back |
| Strings.NatToStringValue | src/rofi.rs:115 | the decimal form of the selected row reads back as that number |
| Cliphist.DigitRun | src/cliphist.rs:30 | the leading run of ASCII digits, as the `idx` group matches it: all digits, followed by a non-digit or the end |
| Cliphist.ParseLineShape | src/cliphist.rs:121-143 | a line parses exactly when it is one or more digits, a tab, then a value with no newline; the id is the digit run and the value is everything after the first tab, further tabs included |
| Cliphist.ParseLineRoundTrip | src/cliphist.rs:121-143 | writing `<id>\t<value>` and parsing it gives back the id, with the value classified as text or image |
| Cliphist.BinaryStart | src/cliphist.rs:31 | the binary pattern's prefix matches exactly when the value starts with `binary`, or with `[[`, one whitespace and `binary`; the `.*` part then starts at 6 after a bare `binary` and at 9 after the bracketed form |
| Cliphist.NewlineFrom | src/cliphist.rs:31 | `.` stops at a newline: the span holds no newline and ends at one or at the end of the value |
| Cliphist.ExtAt | src/cliphist.rs:31 | the extension alternative that matches at a position, tried in pattern order; none matches when the result is none |
| Cliphist.RightmostExt | src/cliphist.rs:31 | greedy `.*` backtracking: the rightmost position in the span where an extension matches, with no match to its right |
| Cliphist.ClassifyImage | src/cliphist.rs:130-140 | a value is an image exactly when the prefix matches and an extension follows on the same line; the content type is the rightmost such extension; any other value is text with the value as title; the id is kept |
| Cliphist.NonEmpty | src/cliphist.rs:53 | the kept lines are exactly the non-empty ones |
| Cliphist.NonEmptyAppend | src/cliphist.rs:53 | the filter keeps order and multiplicity: a single line is kept exactly when non-empty, and the filter distributes over concatenation |
| Cliphist.ParseAll | src/cliphist.rs:54-59 | the listing succeeds exactly when every line parses; it then has one entry per line, in order; otherwise the error is that of the first failing line |
| Cliphist.LinesOfRender | src/cliphist.rs:51-53 | the output of rows `<id>\t<value>\n` splits into exactly those rows, in order |
| Cliphist.ListRender | src/cliphist.rs:37-64 | listing such an output succeeds with one entry per row, in row order, each the classification of its row |
| Cliphist.CacheKeyInjective | src/cliphist.rs:146-153 | with digit ids, an image's cache key (`id.ct`) equals no other entry's key, so the key gives the image entry back |
| Cliphist.FramingCarriesId | src/cliphist.rs:81-101 | `<id>\t` sent to `delete` is the listed line cut after its tab, and the `decode` argument is that plus `\n`, so the store reads back the id it listed |
| Cliphist.ClipHist.constructor | src/cliphist.rs:26-33 | a store adapter over the given payloads and refusals, with no request sent yet |
| Cliphist.ClipHist.Remove | src/cliphist.rs:67-93 | sends `<id>\t` to `delete` and logs it; a refusing store is the error "Error executing cliphist" |
| Cliphist.ClipHist.ValueOf | src/cliphist.rs:96-119 | sends `<id>\t\n` to `decode` and logs it; returns the stored payload, or the error when the store has none |
| Cache.Join | src/cache.rs:67-69 | `PathBuf::join`: an absolute component replaces the path; otherwise a `/` is inserted exactly when the path is non-empty and does not end in `/` |
| Cache.JoinAllPlain | src/cache.rs:76-78 | folding plain components onto a path that does not end in `/` gives the path, a `/`, and the components joined by `/` |
| Cache.InitCacheDirPath | src/cache.rs:72-86 | the cache directory is the root, a `/` and the hierarchy verbatim, when the hierarchy has no empty component |
| Cache.Pruned | src/cache.rs:28-53 | the directory after pruning holds exactly the kept names that were there, with their contents unchanged |
| Cache.PruneIdempotent | src/cache.rs:28-53 | pruning a second time with the same names changes nothing and deletes nothing |
| Cache.SimpleCache.constructor | src/cache.rs:21-25 | the cache directory is the fold of the hierarchy onto the root; the directory's files are what is on disk |
| Cache.SimpleCache.Add | src/cache.rs:56-59 | stores the value under the entry's cache key, overwriting; the key then exists and no other name's existence changes |
| Cache.SimpleCache.Prune | src/cache.rs:28-53 | deletes exactly the files whose name is not excluded, keeps the others unchanged, and returns how many were deleted |
| Cache.ExistsAtPath | src/cache.rs:62-64 | for a plain name (non-empty, no `/`) in a plain directory, `exists` holds exactly when a regular file is at `path(id)`, and that file is the named one |
| Cache.PathOfPlain | src/cache.rs:67-69 | with a plain directory and a relative name, the path is `dir/name`, whether or not the file exists |
| Clipboard.Clipboard.Copy | src/clipboard.rs:12-27 | the payload is handed to the clipboard, after every earlier one |
| Rofi.DefaultOptions | src/rofi.rs:60-75 | dmenu, case-insensitive and no free-text entry are on; the format is `i`; the first row is selected; there are no bindings, no themes, no prompt and no message |
| Rofi.NewOptions | src/rofi.rs:77-98 | the defaults with prompt, message, bindings and theme strings set, and nothing else changed |
| Rofi.ToArgs | src/rofi.rs:111-157 | the argument vector built push by push is the specified one: head flags, bindings, help line, prompt, themes |
| Rofi.PushBindings | src/rofi.rs:129-132 | appends one flag/chord pair per binding, in binding order |
| Rofi.BuildMesg | src/rofi.rs:133-146 | the help line is the span opening, one item per binding in order (the chord in bold, a colon, the description and a bar), then the span closing |
| Rofi.PushThemes | src/rofi.rs:151-154 | appends one `-theme-str` pair per theme string, in order |
| Rofi.KbArgsShape | src/rofi.rs:129-132 | binding `i` is at positions `2i` and `2i+1`, as `-kb-custom-<key>` and its chord |
| Rofi.ThemeArgsShape | src/rofi.rs:151-154 | theme string `i` appears verbatim at position `2i+1`, behind `-theme-str` |
| Rofi.ArgsStartWithSelectedRow | src/rofi.rs:113-115 | the vector opens with `-selected-row` and the selected row in decimal, which reads back as that row |
| Rofi.MesgFollowsBindings | src/rofi.rs:133-146 | with bindings, `-mesg` and the help line come right after the binding pairs |
| Rofi.MesgIffBindings | src/rofi.rs:133-146 | `-mesg` is passed exactly when there are bindings, provided no user-supplied string is itself `-mesg` |
| Rofi.ArgsIgnoreMesg | src/rofi.rs:111-157 | the `mesg` option has no effect on the arguments |
| Rofi.DefaultArgs | src/rofi.rs:113-128 | the default options give `-selected-row 0 -dmenu -i -no-custom -format i` |
| Rofi.EntryAccessors | src/rofi.rs:249-270 | the id is the store id for both kinds; a text has its title as label and no icon; an image has its cache key as both label and icon |
| Rofi.WriteEntry | src/rofi.rs:187-201 | an entry's line is the label, then for an icon `\0icon\x1f` and the cached path or the raw reference, then `\n` |
| Rofi.WriteEntries | src/rofi.rs:186-206 | standard input is the entry lines one after another, in entry order |
| Rofi.RowShape | src/rofi.rs:187-201 | a displayable entry's line is one row plus `\n`; the row starts with the label and holds no newline |
| Rofi.RowsOfEncoding | src/rofi.rs:186-206 | read line by line, standard input holds exactly one row per entry, in entry order |
| Rofi.ParseUsize | src/rofi.rs:225 | `str::parse::<usize>` accepts exactly an optional `+` followed by one or more ASCII digits whose value fits in 64 bits, and yields that value; the empty string, a bare `+`, a sign `-`, any other character and overflow are rejected |
| Rofi.ParseUsizeRoundTrip | src/rofi.rs:225 | the decimal form of an index, with or without a leading `+`, parses back to that index |
| Rofi.DecodeResult | src/rofi.rs:210-243 | decoding fails exactly when the process was not signalled or stopped and its output, minus one trailing newline, is non-empty and not an index |
| Rofi.DecodeResultCases | src/rofi.rs:216-243 | for any output: a signal or stop carries its number whatever was printed; no output after one trailing newline is dropped is Empty on success and Cancel on a non-zero code; an index is a selection on success and a key on that row with the exit code otherwise |
| Rofi.DecodeChosenRow | src/rofi.rs:216-236 | what rofi prints for a chosen row, its index and a newline, decodes to that row: a selection on success, a key action with the exit code otherwise |
| Rofi.Run | src/rofi.rs:160-246 | with no entries, the arguments are `-e`, the message and `-markup`, and nothing is written; otherwise the options' arguments and the entry lines; the answer is decoded |
| CliphistMode.ModeOptionsShape | src/rofi/cliphist_mode.rs:71-113 | each list has its title as prompt (`Texts`, `Images`), the first row selected and its own theme; it has four bindings: switch (slot 1 for texts, 2 for images), then slots 3, 4 and 5 |
| CliphistMode.ModeOptionsMesg | src/rofi/cliphist_mode.rs:71-113 | the message option is `Some("")`, yet each list's command line carries `-mesg` followed by the help line of that list's bindings, right after the binding pairs |
| CliphistMode.BindingCodes | src/rofi/cliphist_mode.rs:159-183 | under the chooser's 9+N convention, every binding exits with a handled code; the switch leads to the other list; slots 3, 4 and 5 are the three deletions |
| CliphistMode.Session.WithCurrent | src/rofi/cliphist_mode.rs:128-131 | replacing the list on screen keeps the mode and leaves the other list untouched |
| CliphistMode.Texts | src/rofi/cliphist_mode.rs:58-62 | the text side of the partition holds only text entries |
| CliphistMode.Images | src/rofi/cliphist_mode.rs:210-213 | the image filter holds only image entries |
| CliphistMode.PartitionComplete | src/rofi/cliphist_mode.rs:58-62 | together the two lists hold every listed entry exactly as often as the listing does |
| CliphistMode.PartitionAppend | src/rofi/cliphist_mode.rs:58-62 | the partition keeps listing order: it distributes over concatenation |
| CliphistMode.InitialPartition | src/rofi/cliphist_mode.rs:58-62 | every listed text is in the text list and every listed image in the image list, with nothing added |
| CliphistMode.Start | src/rofi/cliphist_mode.rs:49-119 | `new` fails exactly when listing fails; otherwise it starts on the text list, each list has its options; the text list is exactly the listed texts and the image list exactly the listed images, in listing order |
| CliphistMode.RemovalRunStuck | src/rofi/cliphist_mode.rs:170-182 | after a failing removal nothing more is sent to the store |
| CliphistMode.RemovalOrder | src/rofi/cliphist_mode.rs:170-182 | removals go in list order; all are sent when all succeed; otherwise they go up to and including the first one that fails |
| CliphistMode.NextHighlights | src/rofi/cliphist_mode.rs:144-157 | a selection or key first sets the highlighted row of the list on screen; nothing else in its options changes and the other list is untouched |
| CliphistMode.NextSwitch | src/rofi/cliphist_mode.rs:160-165 | codes 10 and 11 set the mode to images or texts; both lists are unchanged and nothing is asked of the store or clipboard |
| CliphistMode.NextDeleteOne | src/rofi/cliphist_mode.rs:166-169 | code 12 on a row drops exactly that row and sends exactly one deletion, for that entry; a refusal is the error |
| CliphistMode.NextDeleteBefore | src/rofi/cliphist_mode.rs:170-175 | code 13 on row `id` keeps the rows from `id` on, the pivot first; the deletions sent are the in-order removal run over the rows above, stopping at the first refusal; the loop continues exactly when every row above is deletable, and otherwise fails with the store's error; the list is cut whatever the store answers |
| CliphistMode.NextDeleteAfter | src/rofi/cliphist_mode.rs:176-182 | code 14 on row `id` keeps the rows up to and including `id`, the pivot last; the deletions sent are the in-order removal run over the rows below, stopping at the first refusal; the loop continues exactly when every row below is deletable, and otherwise fails with the store's error; the list is cut whatever the store answers |
| CliphistMode.NextDeleteOutOfRange | src/rofi/cliphist_mode.rs:166-182 | a deletion past the end of the list panics (`Vec::remove` at or past the end, `drain(..id)` past it, `drain(id + 1..)` past it): the row is highlighted, no list changes and nothing is sent |
| CliphistMode.NextSelection | src/rofi/cliphist_mode.rs:144-155 | choosing a row decodes that row's entry, copies its payload and ends the loop; a row out of range panics and a failing store is an error |
| CliphistMode.NextTerminal | src/rofi/cliphist_mode.rs:186-200 | cancel, an empty answer and a signal end the loop and touch nothing |
| CliphistMode.NextUnknownKey | src/rofi/cliphist_mode.rs:159-183 | a code is the unexpected-key error exactly when it is outside 10..14; such an answer leaves both lists and the store alone |
| CliphistMode.BoundKeysHandled | src/rofi/cliphist_mode.rs:159-183 | no binding of the list on screen leads to the unexpected-key error |
| CliphistMode.Exclusions | src/rofi/cliphist_mode.rs:231-235 | the names kept by pruning are exactly the images' cache keys |
| CliphistMode.FillStuck | src/rofi/cliphist_mode.rs:217-229 | after a failing decode, filling does nothing more |
| CliphistMode.FillKeeps | src/rofi/cliphist_mode.rs:217-229 | filling never rewrites a file and adds only image keys; when it gets through, every image key is present |
| CliphistMode.FillAdds | src/rofi/cliphist_mode.rs:217-229 | every added file holds the store's payload of an image with that key |
| CliphistMode.FillAsks | src/rofi/cliphist_mode.rs:217-229 | the store is asked only about images whose key the cache lacked; filling gets through when the store knows every image |
| CliphistMode.FillNoop | src/rofi/cliphist_mode.rs:217-229 | when every image already has its file, filling asks nothing and changes nothing |
| CliphistMode.ReconcileMirrors | src/rofi/cliphist_mode.rs:205-238 | after a successful sync the cache's names are exactly the image keys; old files keep their content; the count is the number of non-image files deleted |
| CliphistMode.ReconcileFetches | src/rofi/cliphist_mode.rs:217-229 | new files hold the store's image payloads, and the store is asked only about missing keys |
| CliphistMode.ReconcileSettled | src/rofi/cliphist_mode.rs:205-238 | a cache holding exactly the image keys is left as it is, with no request and a count of 0 |
| CliphistMode.ReconcileTwice | src/rofi/cliphist_mode.rs:205-238 | reconciling again with the same images asks nothing, changes nothing and deletes nothing |
| CliphistMode.SyncMirrors | src/rofi/cliphist_mode.rs:205-238 | a failing listing is the error and leaves the cache alone; a successful sync leaves exactly the fresh listing's image keys |
| CliphistMode.SyncTwice | src/rofi/cliphist_mode.rs:205-238 | a second sync against the same listing asks nothing, changes nothing and returns 0 |
| CliphistMode.ReconcileSucceeds | src/rofi/cliphist_mode.rs:217-229 | when the store can decode every listed image, synchronisation succeeds |
| CliphistMode.StepAnswered | src/rofi/cliphist_mode.rs:125-143 | an iteration whose sync and answer both go through reacts to the answer over the synced cache, after the sync's requests |
| CliphistMode.StepShowsSyncedCache | src/rofi/cliphist_mode.rs:125-143 | the chooser is shown only after a successful sync, over a cache mirroring the fresh listing's images; otherwise the iteration fails with the lists unchanged |
| CliphistMode.NextCopies | src/rofi/cliphist_mode.rs:139-200 | one answer copies at most once, and only when it ends the loop |
| CliphistMode.StepCopies | src/rofi/cliphist_mode.rs:125-200 | one iteration copies at most once, and only when it ends the loop |
| CliphistMode.DriveCopiesOnce | src/rofi/cliphist_mode.rs:122-203 | a run copies at most once, and a copy always ends it normally |
| CliphistMode.SampleImageSpan | src/cliphist.rs:31 | the sample image value `[[ binary\tdata ]] png` opens the `.*` part at 9, which runs to its end |
| CliphistMode.SampleImageExt | src/cliphist.rs:31 | the rightmost extension in the sample's `.*` part is `png` |
| CliphistMode.SampleImage | src/cliphist.rs:130-134 | the sample value classifies as a `png` image, although it has a tab inside |
| CliphistMode.SampleText | src/cliphist.rs:135-140 | `hello` classifies as text |
| CliphistMode.SampleListing | src/cliphist.rs:37-64 | the two-line sample history lists as one text and one `png` image |
| CliphistMode.PairParts | src/rofi/cliphist_mode.rs:58-62 | one text then one image split into one entry per list |
| CliphistMode.PairStart | src/rofi/cliphist_mode.rs:49-119 | such a history starts on the text list holding the text, with the image in the image list |
| CliphistMode.PairReconcile | src/rofi/cliphist_mode.rs:205-238 | over an empty cache, one image's payload is fetched into the file named by its key and nothing is deleted |
| CliphistMode.PairSync | src/rofi/cliphist_mode.rs:205-238 | syncing an empty cache with such a history fetches exactly the image's payload |
| CliphistMode.ChooseFirstAnswer | src/rofi.rs:220-227 | the chooser printing `0` and a newline on success is the choice of row 0 |
| CliphistMode.ChooseOnlyText | src/rofi/cliphist_mode.rs:144-155 | on a text list holding one text, choosing row 0 decodes it, copies its payload and ends the loop |
| CliphistMode.PairStep | src/rofi/cliphist_mode.rs:125-155 | the first iteration over such a history fetches the thumbnail, then choosing row 0 copies the text and ends the loop |
| CliphistMode.DriveStops | src/rofi/cliphist_mode.rs:125-203 | a loop whose first iteration ends it is that iteration |
| CliphistMode.Scenario | src/rofi/cliphist_mode.rs:49-203 | end to end: the run starts on the texts; the first iteration fills the empty cache with the image's thumbnail; choosing row 0 copies the text's payload and ends the run |
| CliphistMode.ClipHistMode.constructor | src/rofi/cliphist_mode.rs:32-45 | the mode holds the given store, cache and clipboard, and the given lists and mode |
| CliphistMode.ClipHistMode.New | src/rofi/cliphist_mode.rs:49-119 | listing, partitioning and setting up the options step by step gives `Start`'s session, or its error |
| CliphistMode.ClipHistMode.SetCurrent | src/rofi/cliphist_mode.rs:128-131 | replaces the list the mode points at, and nothing else |
| CliphistMode.ClipHistMode.RemoveEach | src/rofi/cliphist_mode.rs:170-182 | removes the entries one by one, stopping at the first failure, as `RemovalRun` specifies |
| CliphistMode.ClipHistMode.KeyAction | src/rofi/cliphist_mode.rs:159-184 | the key match on the fields and the store does what `KeyEffect` specifies |
| CliphistMode.ClipHistMode.Dispatch | src/rofi/cliphist_mode.rs:139-201 | the answer match changes the lists, the store's log and the clipboard as `Next` specifies |
| CliphistMode.ClipHistMode.FillMissing | src/rofi/cliphist_mode.rs:217-229 | the filling loop leaves the cache and the store's log as `FillCache` specifies |
| CliphistMode.ClipHistMode.SyncCache | src/rofi/cliphist_mode.rs:205-238 | `sync_cache` on the cache and store objects does what `Sync` specifies and returns its count |
| CliphistMode.ClipHistMode.ShowAndDispatch | src/rofi/cliphist_mode.rs:133-201 | the chooser call on the list on screen and the reaction to its answer, as `Respond` specifies |
| CliphistMode.ClipHistMode.RunOnce | src/rofi/cliphist_mode.rs:125-201 | one loop iteration on the objects does what `Step` specifies |
| CliphistMode.ClipHistMode.Run | src/rofi/cliphist_mode.rs:122-203 | the loop over a script of answers does what `Drive` specifies: it stops at the first iteration that does not continue |

## Left out

- Process spawning, pipes, waiting and reading output for `cliphist`, `rofi` and the clipboard setter. Their answers are parameters or oracle fields.
- `String::from_utf8_lossy` and byte encoding: listings, chooser output and entry lines are strings of characters, not UTF-8 bytes. Payloads are bytes.
- The `BaseDirs` lookup and `create_dir_all` in `init_cache_dir`. The cache root is a parameter and only the path fold is modelled.
- Cache.SimpleCache.Prune: an unreadable directory (an error) and a failing `remove_file` (a panic) are not modelled. Subdirectories are not modelled either, so the directory is its regular files only.
- Cache.SimpleCache.Add: a failing `fs::write` (a panic) is not modelled.
- Cache.SimpleCache.Exists: only plain names (non-empty, no `/`) are modelled. For an absolute name or one containing `/`, `exists` looks outside the directory, and the directory map cannot express that. The mode only asks about cache keys `<digits>.<ext>`, which are plain.
- Clipboard.Clipboard.Copy: the panic on a failing clipboard setter is not modelled, and copying always succeeds.
- CliphistMode.ClipHistMode.Run: the unbounded `loop` of `run` is modelled over a finite script of answers. When the script runs out, the result is `Continue`, which the source never returns.
- CliphistMode.KeyEffect: with code 14, `id + 1` overflowing `usize` at `usize::MAX` is not modelled. Indices are unbounded there.
- The chooser's convention that custom slot `N` exits with code `9 + N` is an assumption (`CUSTOM_EXIT_BASE`), not something the program does.
- The store's payloads and refusals are the same for every request of a run. A history changing between calls is not modelled beyond the fresh listing each iteration reads.
- The `rofi` and `cliphist` binary paths, logging, and `anyhow` context strings. Errors keep their kind and a fixed message: the store's standard error text, which `list` and `value_of` put into their errors, is dropped, and a failing store call is always "Error executing cliphist".
- src/config.rs (configuration loading and defaults) and src/bin/rofi-cliphist.rs (the executable's wiring) are not part of this model. The configuration is the parameter `ClipHistModeConfig`.
- The help line built for `-mesg` ends every binding item with ` | `, the last one included, and does not escape markup in chords or descriptions. The model follows the code here.
- The `mesg` option is stored by `RofiOptions::new` but never emitted. The model keeps it as a field that `Args` ignores (`Rofi.ArgsIgnoreMesg`).
