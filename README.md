# cargo-show-asm, modelled in Dafny

cargo-show-asm shows the code the Rust compiler generates for one function of a
crate: assembly, LLVM-MCA analysis or MIR. This project models its core. That
core turns a compiler listing into per-function items, picks one of them,
renders it, and serves renderings to an interactive fuzzy finder.

- `strings.dfy`, `utf8.dfy`, `sorted_map.dfy`, `paths.dfy` hold the
  vocabulary the core relies on:
  - Rust string operations: `starts_with`, `split_once`, `rfind`, `trim`,
    `usize` display and parsing.
  - UTF-8 encoding and decoding.
  - `BTreeMap`, as a strictly sorted association list.
  - Path components, as `Path::components`/`push` see them.
- `items.dfy` models `src/lib.rs`:
  - `Item` and its derived lexicographic order;
  - `get_dump_range`, whose every exit becomes a `Selection` outcome;
  - the grouping and numbering of `suggest_name`.
- `asm_statements.dfy` holds the parsed assembly statements and the functions
  the core uses without showing them, bundled as `Oracles`:
  - the statement parser;
  - `is_section_start`, `is_global`, `is_end_of_fn`;
  - the demangler;
  - `Statement`'s `Display`.
- `asm_parse.dfy`, `asm_find_items.dfy`, `asm_render.dfy` and
  `asm_sources.dfy` model `src/asm.rs`:
  - `parse_file`;
  - the `find_items` scan;
  - `used_labels` and the renderer `AsmDumpCtx::dump_range_into_writer`, with
    the writer as the sequence of lines written;
  - `locate_sources` and `load_rust_sources`, against a file-system oracle.
    The loader uses `locate_sources` as written. The corrected registry
    lookup of the finding below is modelled and proved beside it.
- `mir.dfy` models `src/mir.rs`: the MIR item scan and the comment-splitting
  renderer.
- `mca.dfy` models `src/mca.rs`: the input fed to `llvm-mca` and the order
  of its output.
- `ipc.dfy` models `src/ipc.rs`:
  - the server's request parsing and dispatch;
  - the serving loop over incoming connections;
  - socket addresses;
  - the client's request line.
- `select.dfy` models `src/select.rs`:
  - finder priority, executables and preview support;
  - argument building on a `Command` object;
  - the `serialize`/`deserialize` line format.

The stateful parts keep the program's form. Each is a method whose loop is
proved against a fold function: `FindItems`, `MirFindItems`,
`DumpRangeIntoWriter`, `LoadRustSources`, `SuggestName`, `StartServer`,
`InPathSuggestion`, `FeedMca` and `Serialize`. The properties are lemmas about
those functions.

Process exits and panics become outcome values. Examples are `Selection`,
`Fatal`, `Panic` and `Result`. An out-of-range slice, a `ilog10(0)`
and an `unreachable!` stay preconditions. `usize` is 64 bits wide:
`Strings.USIZE_MAX`.

The code does not promise that item ranges are disjoint.
- In `find_items` of `src/asm.rs`, the section start can lie before the end
  of the previous item.
- In `src/mir.rs`, a comment inside a function body becomes the start of the
  next item.

`Mir.MirRangesCanOverlap` gives an overlapping listing. The model follows the
code and proves only what it guarantees: ranges that are non-empty and ends
that increase.

## Model

| member | source | states |
|---|---|---|
| Items.ItemLessIsStrictTotalOrder | src/lib.rs:75-85 | the derived order on `Item` (lexicographic by name, hashed name, index, len) is a strict total order, so an item map has one key order |
| Items.SuggestName | src/lib.rs:87-120 | the fold into a name-keyed map and the printing loop with its running index produce exactly `Suggestions`: the header chosen by emptiness and search text, then one row per group |
| Items.GroupItems | src/lib.rs:89-95 | folding the items into the name-keyed map yields `Groups`: per key, the lengths of its items in input order |
| Items.NumberRows | src/lib.rs:112-120 | the printing loop writes one row per group in key order, numbered by the running item count (`Rows`) |
| Items.GroupsSorted | src/lib.rs:89-95 | groups come out strictly in key order |
| Items.GroupsCount | src/lib.rs:88-95 | the groups hold as many lengths as there are items: every item lands in one group |
| Items.GroupsContents | src/lib.rs:89-95 | the group of a key holds the `len`s of exactly the items with that key (name, or hashed name when `full`), in iteration order, and there is a group iff some item has the key |
| Items.RowsIndex | src/lib.rs:112-120 | row `i` shows group `i` and is numbered by the count of items in the groups before it |
| Items.SuggestionRows | src/lib.rs:112-120 | one printed row per group, each numbered by the items before it, and the rows account for every item |
| Items.MatchingSpec | src/lib.rs:163-166 | the filtered entries are exactly those whose name contains the pattern, still in key order |
| Items.GetDumpRange | src/lib.rs:129-202 | a selected range is one of the items' ranges (a matching one for a name goal); the whole file is chosen iff the goal is `Everything` and there is not exactly one item; suggestions come only from `Unspecified` or a name goal without `nth` |
| Items.SingleItemSelected | src/lib.rs:134-142 | with exactly one item its range is chosen whatever the goal |
| Items.ByIndexSelection | src/lib.rs:149-158 | by index: the `value`-th range in key order, or the "only N items" error |
| Items.FunctionSelection | src/lib.rs:162-188 | by name: the single match without `nth`; the `nth` match when there is one; the "only N matching items" error; "can't find any items"; or suggestions drawn from the matches only |
| Items.UnspecifiedSuggests | src/lib.rs:196-200 | with no goal the run ends with the suggestions for all items |
| AsmParse.ParseFile | src/asm.rs:21-41 | success iff the parser consumed everything, with its statements; leftovers under 1000 bytes are reported whole, longer ones as their first 200 characters; a parser error is its own failure |
| AsmFindItems.FindItems | src/asm.rs:44-116 | the loop over statements, with section start, open item and name counter, returns the map of the `Scan` state machine |
| AsmFindItems.FindItemsWellFormed | src/asm.rs:44-116 | every recorded range is non-empty and inside the listing, `1 <= len <= end`, and no two keys share a name and an occurrence index |
| AsmFindItems.FindItemsScanOrder | src/asm.rs:75-81 | in scan order the recorded ranges end strictly later each time; the map holds exactly the recorded entries |
| AsmFindItems.SectionBoundaries | src/asm.rs:53-74 | a section directive moves the section start only when no item is open and changes nothing else; a global symbol past `sec_start + 3` moves it and opens nothing |
| AsmFindItems.OpenIndexCounts | src/asm.rs:82-93 | a demangled label opens an item whose index is the number of items opened before under the same name |
| AsmFindItems.UnknownLabelOpens | src/asm.rs:94-110 | a label the demangler does not know opens an item iff it is of unknown kind and the statement at the section start is `.text.<s>` with `s` starting with its id; the item is then named and hashed by the id, its index taken from the counter shared with demangled names; otherwise the state is unchanged |
| AsmFindItems.EndOfFunctionRecords | src/asm.rs:75-81 | an end of function with an open item records it under `sec_start..ix` with `len` the lines since its label, and clears it; without one it records nothing |
| AsmRender.LabelSource | src/asm.rs:121-133 | labels, `Nothing`, `.file`, `.loc`, `.set` and `.subsections_via_symbols` contribute no label text, nor an instruction without arguments |
| AsmRender.UsedLabelsSpec | src/asm.rs:118-137 | a label is used iff it is a local label of the text of some statement that may mention labels |
| AsmRender.WriteLoc | src/asm.rs:168-209 | the handling of one `.loc` is `LocEffect`: dropped unless `rust`, non-zero line and new; then remembered; marker and trimmed source line, or the notice (when verbose) and marker for an unread file; panics for an unknown file index or a line past the file's end |
| AsmRender.WriteStatement | src/asm.rs:163-232 | the loop body for one statement is `StmtEffect`: debug line when verbosity > 2; `.file` silent; labels printed, blanked or skipped; simplified statements skipped; the rest printed, clearing the blank flag |
| AsmRender.DumpRangeIntoWriter | src/asm.rs:146-235 | the lines written and the panic that stops the loop are those of `DumpRange` over the selected slice |
| AsmRender.RenderStatements | src/asm.rs:154-233 | the loop over the selected statements, carrying the last location and the blank-line flag, writes the lines of `Render` and stops at its first panic |
| AsmRender.RenderPrintsSelected | src/asm.rs:167-231 | until a panic, the statements printed are exactly those `Printed` selects, in order: never `.file`/`.loc`, a local or temporary label iff labels are kept or it is used, no directives or unparsed lines under `simplify` |
| AsmRender.RenderNoDoubleBlank | src/asm.rs:210-226 | the blank lines written in place of suppressed labels are never adjacent, and the flag is set whenever the last line written is such a blank |
| AsmRender.RenderMarkers | src/asm.rs:168-178 | markers are written only with `rust`, never for line 0, never twice in a row for the same location, and the remembered location is the last one written |
| AsmRender.RenderSources | src/asm.rs:179-208 | every marker names the cached path of a known file, every source line follows its marker and is that line trimmed, and the "can't locate" notice comes only when verbose before the marker of an unread file |
| AsmSources.RegistryBranchNeverFires | src/asm.rs:290-312 | as written, the registry branch is never taken: the result is the path itself, a rust-src path, the rust-src failure, or nothing |
| AsmSources.LocateSourcesAsWritten | src/asm.rs:250-315 | as written: an existing path is returned unchanged; whatever is found exists; the only failure is the rust-src hint, for a missing `/rustc` or `/private/tmp` path; nothing is found iff the path is missing and is neither of those |
| AsmSources.LocateSources | src/asm.rs:290-312 | the registry branch as evidently intended: an existing path is returned unchanged; whatever is found exists; nothing is found iff the path is missing, is neither a `/rustc` nor a `/private/tmp` path, and its first `cargo`/`.cargo` component is not followed by `registry` |
| AsmSources.RustcPathRewritten | src/asm.rs:264-275 | a missing `/rustc/...` path is looked up under `sysroot/lib/rustlib/src/rust` with its components after the third, and fails with the rust-src hint when absent |
| AsmSources.MacPathRewritten | src/asm.rs:277-288 | a missing `/private/tmp...` path with a `library` component: the same root plus its components after the fifth |
| AsmSources.RegistryPathRewritten | src/asm.rs:290-312 | a missing `.../cargo/registry/<rest>` path is looked up as `~/.cargo/registry/<rest>`, and a missing one is the registry failure |
| AsmSources.RegistryCounterexample | src/asm.rs:290-312 | `/cargo/registry/src/lib.rs` with home `/home/user`: nothing as written, `~/.cargo/registry/src/lib.rs` as intended |
| AsmSources.EntryOf | src/asm.rs:328-339 | a located file is cached with its lines, an unreadable one ends the run, a path not located is cached without lines, and a locator failure ends the run with its reason |
| AsmSources.LoadEntryFatal | src/asm.rs:328-339 | with `locate_sources` as written, loading a file ends the run only with the rust-src hint or an unreadable file |
| AsmSources.LoadEntryRegistry | src/asm.rs:290-339 | a missing registry path whose `~/.cargo` copy exists is cached without lines as written, and read from the copy as intended |
| AsmSources.LoadRustSources | src/asm.rs:317-344 | the loop over statements, with `locate_sources` as written, ends with the cache `LoadFrom` computes, or with its fatal outcome, which is the rust-src hint or an unreadable file |
| AsmSources.LoadFirstWins | src/asm.rs:323-341 | the cache keeps its old entries, gains exactly the indices of `.file` directives, and each new entry comes from the first directive with that index |
| Mir.StripSuffixes | src/mir.rs:30-39 | the labelled loop that strips suffixes computes `StripName` |
| Mir.FirstSuffix | src/mir.rs:30-39 | the suffix tried first among those the line ends with, every earlier one failing; none when no suffix applies |
| Mir.StripNameSpec | src/mir.rs:30-39 | the name is a prefix of the line and ends with none of `" {"`, `" ="`, `" -> ()"` |
| Mir.StripNameFixed | src/mir.rs:30-39 | a line without those suffixes is its own name |
| Mir.MirFindItems | src/mir.rs:10-50 | the scan with open item and pending comment start returns the map of the `MirScan` state machine |
| Mir.MirFindItemsWellFormed | src/mir.rs:20-27 | every recorded range ends at a `}` line inside the listing, has at least two lines and `len` equal to its length; indices are unique |
| Mir.MirScanOrder | src/mir.rs:20-43 | ranges end strictly later in scan order, each index counts the items recorded before, the map holds exactly the recorded entries |
| Mir.BlockStartKept | src/mir.rs:16-19 | the first `//` line of a run sets the pending start, later ones do not move it |
| Mir.MirOpens | src/mir.rs:28-45 | an item opens only on a header line while none is open, starting at the pending comment start (then consumed) or at the line |
| Mir.MirRangesCanOverlap | src/mir.rs:16-29 | a comment inside a function body is taken as the start of the next item, so recorded ranges can overlap |
| Mir.HeaderName | src/mir.rs:28-39 | `<name> {` with no suffix on the name opens an item named `<name>` |
| Mir.RenderMirLine | src/mir.rs:67-76 | a line is split iff it contains `//`, at its last `//`, and the parts concatenate to the line |
| Mir.MirDumpRangeIntoWriter | src/mir.rs:59-79 | one written line per selected line, each split as `RenderMirLine` says |
| Mir.MirRenderText | src/mir.rs:64-76 | the written parts give back the selected lines |
| Mca.McaArgs | src/mca.rs:78-81 | the user's arguments, then `--mtriple t` and `--mcpu c` when given |
| Mca.StartsSkipped | src/mca.rs:109-113 | the inner loop tells whether a trimmed line starts with `.loc` or `.file` |
| Mca.FeedMca | src/mca.rs:76-117 | what is fed is the optional `.intel_syntax` header, the filtered selected lines, and `.cfi_endproc` |
| Mca.McaOutput | src/mca.rs:120-129 | every stdout line, demangled, before every stderr line, verbatim |
| Mca.FedAppend | src/mca.rs:107-116 | filtering keeps the selected order |
| Mca.FedSound | src/mca.rs:107-116 | every fed line is a trimmed selected line that starts with neither `.loc` nor `.file` |
| Mca.FedComplete | src/mca.rs:107-116 | every selected line whose trimmed form starts with neither is fed |
| Mca.McaInputShape | src/mca.rs:103-117 | the header comes first iff requested, the trailer last, the filtered lines in between, and no fed line is a location directive |
| Ipc.GetAddressInjective | src/ipc.rs:30-39 | distinct process ids give distinct addresses, in both the path and the namespaced form |
| Ipc.ReadLine | src/ipc.rs:102-103 | `read_line` takes a prefix of the input ending at its first newline, or all of it |
| Ipc.HandleRequest | src/ipc.rs:91-133 | stop iff the line read is exactly `Stop\n`, writing nothing; continue only after dumping the range at the requested index; malformed and not-found errors write and return their messages |
| Ipc.StopNeedsExactLine | src/ipc.rs:105-107 | `Stop` and `Stop\r\n` are malformed requests, not stops |
| Ipc.ClientRequestRoundTrip | src/ipc.rs:111-149 | the server reads back from the client's line `Request: <n>\n` exactly `n`, and never a stop |
| Ipc.ClientServerRoundTrip | src/ipc.rs:121-132 | a client request is answered with the dump of that index in key order, or the not-found error when out of range |
| Ipc.StartServer | src/ipc.rs:53-84 | the loop over connections writes the replies and logs the lines of `Serve` |
| Ipc.ServeAfterStop | src/ipc.rs:75-77 | after a stop no connection is handled |
| Ipc.ServeOneStops | src/ipc.rs:73-82 | one connection stops the server iff it is a stop request |
| Ipc.ServeStopsOnlyOnStop | src/ipc.rs:70-83 | the server stops iff some connection sent `Stop\n` |
| Ipc.ServeAnswersAll | src/ipc.rs:70-83 | until stopped every accepted connection gets a reply, and every connection is answered or logged |
| Select.GetExecutable | src/select.rs:65-72 | the executable of a custom finder is its first command word |
| Select.BuiltinExecutablesDistinct | src/select.rs:65-72 | `fzf`, `sk` and `fzy` are distinct executables |
| Select.HasPreviewSupport | src/select.rs:104-111 | preview iff built with ipc and the finder is fzf, skim, or a custom one with a preview command |
| Select.InPathSuggestion | src/select.rs:36-63 | the found flags set over every directory of the search path give the first available finder in priority order |
| Select.SuggestionPriority | src/select.rs:38-62 | the suggestion is available and every finder preferred to it is not; none means none is available |
| Select.Command.constructor | src/select.rs:77 | a new command has its program and no arguments |
| Select.Command.Arg | src/select.rs:82-86 | `arg` appends one argument |
| Select.Command.Args | src/select.rs:84-91 | `args` appends arguments in order |
| Select.SubstituteServer | src/select.rs:130-137 | each `PREVIEWSERVER` becomes the address, every other preview argument is kept, in order |
| Select.AddPreview | src/select.rs:113-144 | fzf and skim get the preview window and the client command; a custom finder gets its substituted preview arguments |
| Select.DefaultCommand | src/select.rs:76-102 | the finder's executable with `FinderArgs`: fixed fzf/skim arguments, a custom command's own arguments, then the preview when supported |
| Select.CustomArgs | src/select.rs:89-137 | a custom finder gets `command[1..]`, then its substituted preview arguments when built with ipc and the preview is not empty |
| Select.Serialize | src/select.rs:147-157 | one line per item in key order: the index right-aligned to `ilog10(n) + 1`, `": "`, the name |
| Select.IndexColumnAligned | src/select.rs:151-153 | every index fits the column, so all lines have the same index width |
| Select.Deserialize | src/select.rs:159-167 | fails as not UTF-8 iff the bytes do not decode, for lack of a delimiter iff the start-trimmed text has no `": "`, as not an index iff the text before the first `": "` is not a `usize`, and otherwise returns a number within `usize` |
| Select.DeserializeSerialized | src/select.rs:169-186 | any serialized line, followed by anything, reads back as its index, whatever its name holds |
| Utf8.DecodeEncode | src/select.rs:160 | decoding what was encoded gives back the text |
| Strings.DebugStr | src/lib.rs:182 | `Debug` of a string: the escaped text between double quotes, at least as long as the text plus the quotes, with no control character, so the message stays one line |
| Strings.EscapeDebugChar | src/lib.rs:182 | a character is written as it is iff it is neither a control character, a backslash nor a double quote; every escape is free of control characters |
| Strings.DebugPlain | src/lib.rs:182 | a pattern without control characters, backslashes or double quotes is written as it is, between double quotes |
| Strings.ParseNatToString | src/ipc.rs:114 | parsing the decimal display of a `usize` gives the number back |

## Left out

- Terminal colours and the exit on a broken standard output stream. The
  model writes structured lines without colour.
- The renderer's verbosity > 2 debug line is a `DebugLine` carrying the
  statement. Its text comes from the `Debug` oracle.
- The statement grammar, `Statement` display and debug text,
  `is_section_start`/`is_global`/`is_end_of_fn` and the demangler are
  function-valued parameters.
- The parser's own error is kept as its `Display` text, a parameter.
- `Strings.EscapeDebugChar`: non-ASCII characters that `Debug` escapes as
  `\u{..}` (grapheme extenders and non-printable code points) are written as
  they are. The Unicode tables are not modelled.
- Reading files, `Path::exists`, `home_dir` and `CachedLines` are parameters
  of `SourceEnv`. A file's lines are given without endings.
- `FilePath::as_full_path` is not part of this model: a `.file` directive
  carries its full path.
- The "Reading file" and "File not found" messages of `load_rust_sources` are
  left out because they are printing only.
- `dump_function` in `src/asm.rs`, `src/mir.rs` and `src/mca.rs` is left out.
  It reads the file, then chains `parse_file`, `find_items`,
  `get_dump_range` and the renderer; each of those is modelled.
- `interactive_mode` in `src/lib.rs` is left out because it spawns fzf and
  uses threads.
- `DumpRange::dump_range` and writer I/O errors are left out: writing is
  modelled as always succeeding.
- `Items.SuggestName`: the index column width, `ceil(log10(count))` in
  floating point, is not modelled. Rows carry the index as a number.
- `Mca.FeedMca`: spawning `llvm-mca` and its start-up failure are left out,
  and so is the "running" line at verbosity 2. The tool's output streams are
  given to `Mca.McaOutput` as lines.
- `Mca.FeedMca`: the labelled `continue 'outer` is written as a call to the
  `Mca.StartsSkipped` helper method.
- Sockets, `get_socket` and its address-in-use exit, threads,
  `start_client`'s connect retry and pass-through copy, and
  `send_server_stop` are left out. Connections are given as a sequence of
  what each delivered.
- `Ipc.GetAddress`: the process id is a natural number rather than a
  `u32`, and `NameTypeSupport::query()` is a parameter.
- `Select.InPathSuggestion`: reading `PATH` and `split_paths` are given as an
  optional list of directories. `is_file` is a parameter.
- `Select.AddPreview`: `std::env::args().next()` and `ipc::get_address()`
  are parameters, and the `ipc` feature is a boolean parameter.
- `Select.Serialize`: the writer's flush and its errors are left out.

## Findings

| source | as written | input that shows it | evidently intended | confidence | as-written member | corrected member |
|---|---|---|---|---|---|---|
| src/asm.rs:291-304 | the registry branch finds the first `cargo`/`.cargo` component at `ix`, then checks that the same component `nth(ix)` equals `registry`, which it never does; the branch would also push the components from `ix` on, repeating `cargo` | `/cargo/registry/src/lib.rs` missing, home `/home/user`, and `/home/user/.cargo/registry/src/lib.rs` present: `locate_sources` returns `None` | compare component `ix + 1` with `registry` and look the path up as `~/.cargo` plus the components after `ix`; the loader (`AsmSources.LoadEntry`) follows the code as written, and `AsmSources.LoadEntryIntended` uses the corrected lookup (`AsmSources.LoadEntryRegistry`) | not executed | AsmSources.RegistryCounterexample | AsmSources.RegistryPathRewritten |
