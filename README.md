# hosts-override, modelled in Dafny

hosts-override is a command-line tool that adds `HOST_NAME,(IP|RESOLVABLE_HOST_NAME)`
overrides to the system hosts file while it runs and removes them when it gets a
termination signal. This project models its core, `main.go`:

- **Entries** (`entries.dfy`): `parseArgs`. Each argument is split at its commas.
  The first field becomes the hostname and the second the target. An argument
  without a comma makes the Go code index past the end of the split; here that is an
  error value.
- **Expansion** (`expansion.dfy`): `parsedOverrides`. A literal-IP target keeps its
  entry unchanged. A hostname target becomes one entry per looked-up address, and
  each such entry remembers the target as `resolvedFrom`. The first failed lookup
  gives `nil` when refresh is on and `os.Exit(1)` when it is off.
- **Render** (`render.dfy`): `wrappingComment`, `startComment`, `finishComment`,
  `parsedOverridesAsHosts` and `parsedOverridesForHosts`. These are the delimiters,
  one hosts line per entry, and the block framed by the two delimiters.
- **Removal** (`strip.dfy`): the replacement in `removeOverrides`. It uses the
  greedy pattern `(?s)(START).*(FINISH)`, which is modelled as a cut. The cut runs
  from the first start delimiter to the last finish delimiter that begins at or
  after that start delimiter's end. The module proves that this strip is idempotent
  and that start followed by exit gives back marker-free content exactly.
- **HostsOverride** (`session.dfy`): the hosts file as a `Session` object.
  `appendOverrides` and `removeOverrides` update its `content` field. The lifecycle
  of `overrideCmd` is modelled as `Start`, the refresh `Tick`s and `Exit`, and `Run`
  strings these together into one run.

The library calls `net.ParseIP` (through `maybeIP`) and `net.LookupIP` become a
`Resolver` value passed in by the caller. Whether the hosts file can be read at a
given moment becomes a boolean parameter.

Behaviour the model follows:

- Entries whose target is a literal IP keep a nil `ipResovledFrom`, and
  `parsedOverridesAsHosts` dereferences it (main.go:184). So the first pass whose
  expansion succeeds panics before it appends anything when the arguments include a
  literal IP. A lookup failure on an earlier pass comes first: without refresh the
  process exits with code 1 (main.go:221), and with refresh the pass returns nil
  (main.go:219) and renders nothing. The model renders such an entry as the error
  `NilResolvedFrom`, and the session ends `Panicked`.
- What a failed lookup does depends on the refresh flag alone (main.go:216-222).
- A refresh tick strips the block before it expands (main.go:52-54). A tick whose
  lookups fail therefore leaves the file without a block.
- Fields after the second comma of an argument are ignored (main.go:110-111).
- A literal IP is kept as typed (main.go:211-212).
- Every line has the form `<ip> <hostname> # IP resolved from <target>` followed by
  a line break (main.go:184).

## Model

| member | source | states |
|---|---|---|
| Entries.Split | main.go:110 | the fields contain no comma, joining them with commas gives back the argument, and there is more than one field exactly when the argument holds a comma |
| Entries.ParseArg | main.go:110-111 | an argument parses exactly when it holds a comma; otherwise the error names that argument; a parsed entry has no resolvedFrom |
| Entries.ParseAll | main.go:106-115 | parsing succeeds exactly when every argument holds a comma; it then yields one entry per argument, in order, each the parse of its own argument |
| Entries.ParseArgs | main.go:106-115 | the loop over the arguments returns exactly what ParseAll specifies, including the error for the first comma-less argument |
| Entries.ParseAllErrPrefix | main.go:109-111 | once a prefix of the arguments fails, the whole list fails with the same error |
| Entries.ParseAllError | main.go:109-111 | a failure names the first argument without a comma, and every earlier argument holds one |
| Entries.SplitFieldsAt | main.go:110-111 | when an argument holds a comma, the first split piece is the text before the first comma and the second the text up to the next comma or the end |
| Entries.FieldsAtUnique | main.go:110-111 | comma-free host and target fields are determined by the argument |
| Entries.ParseArgFields | main.go:110-111 | an argument parses to (host, target, no resolvedFrom) exactly when host is the text before the first comma and target the text between the first and the second comma (or the end) |
| Expansion.Step | main.go:211-230 | one request succeeds exactly when its target is a literal IP or looks up; a failure is nil with refresh and exit code 1 without it; a success keeps what was expanded before in front and adds as many entries as the request's width |
| Expansion.Expand | main.go:207-235 | expansion succeeds exactly when every target is a literal IP or looks up; otherwise the outcome is nil with refresh and exit code 1 without it; on success there are as many entries as the targets' widths add up to |
| Expansion.ParsedOverrides | main.go:207-235 | the loop, with its early return and its exit, returns exactly what Expand specifies |
| Expansion.StepPrefix | main.go:224-230 | a request's step only appends; what was expanded before stays in front |
| Expansion.ExpandAppend | main.go:210-232 | request order is preserved: two lists expanded one after the other give the concatenation of their expansions |
| Expansion.ExpandLiteral | main.go:211-212 | a literal-IP request contributes itself, unchanged |
| Expansion.ExpandHostname | main.go:224-230 | a hostname request contributes one entry per looked-up address, in lookup order, each with the request's hostname and with the target as resolvedFrom |
| Expansion.ExpandAllLiteral | main.go:210-213 | a list of literal-IP requests expands to itself |
| Render.WrappingComment | main.go:159-163 | a delimiter is 73 characters longer than its custom word |
| Render.WrappingLayout | main.go:159-163 | a delimiter opens and closes with a blank line, its rules of 25 '#' surround the title, the marker `hosts-override` is at offset 30 followed by the custom word, and no earlier character can start the marker |
| Render.StartComment | main.go:165-167 | the start delimiter is 78 characters long |
| Render.FinishComment | main.go:169-171 | the finish delimiter is 79 characters long |
| Render.FramedConcat | main.go:173-179 | two rendered blocks one after the other still open with the start delimiter and close with the finish delimiter |
| Render.Line | main.go:184 | a line is longer than the address and hostname together and ends in a line break |
| Render.LineShape | main.go:184 | a line starts with the entry's address followed by a space |
| Render.Lines | main.go:181-188 | a panic names an entry of the list that has no resolvedFrom |
| Render.LinesOk | main.go:181-188 | the lines are produced exactly when every entry carries resolvedFrom |
| Render.ParsedOverridesAsHosts | main.go:181-188 | the loop returns exactly what Lines specifies: all lines in order, or the panic on a nil resolvedFrom |
| Render.LinesError | main.go:183-184 | the panic is on the first entry without resolvedFrom, and every earlier entry carries one |
| Render.LinesErrPrefix | main.go:183-184 | once a prefix panics, the whole list panics the same way |
| Render.LinesAppend | main.go:181-188 | the lines of two lists one after the other are the first list's lines followed by the second's |
| Render.LinesCount | main.go:184 | one line per entry: with single-line fields, the text holds exactly one line break per entry |
| Render.Block | main.go:173-179 | the block exists exactly when the lines do; it opens with the start delimiter, closes with the finish delimiter, and holds exactly the lines in between |
| Render.ParsedOverridesForHosts | main.go:173-179 | the method returns exactly what Block specifies |
| Removal.FindFirst | main.go:151-152 | the first occurrence of a pattern at or after a position: it occurs there and nowhere before it |
| Removal.FindLast | main.go:151-152 | the last occurrence of a pattern in a range: it occurs there and nowhere after it in the range |
| Removal.FindFirstFinds | main.go:151-152 | the search for the start delimiter succeeds when the text holds one |
| Removal.FindLastFinds | main.go:151-152 | the search for the finish delimiter succeeds when one begins in the searched range |
| Removal.Strip | main.go:151-152 | text without a start delimiter followed by a finish delimiter is unchanged |
| Removal.StripAt | main.go:151-152 | where both searches succeed, their positions form the greedy match and Strip cuts out exactly the text from the start delimiter through the finish delimiter |
| Removal.StripMatch | main.go:151-152 | text holding a block is cut from its first start delimiter to the end of the last finish delimiter after it, the greedy match |
| Removal.MatchUnique | main.go:151-152 | the greedy match is unique, so the replacement happens at most once |
| Removal.CutHasNoBlock | main.go:151-152 | what is left after the cut holds no block |
| Removal.StripIdempotent | main.go:151-152 | stripping twice is stripping once |
| Removal.StripLeavesNoBlock | main.go:151-152 | whatever the text, its strip holds no start delimiter followed by a finish delimiter |
| Removal.DelimiterHasMarker | main.go:159-171 | every occurrence of a delimiter carries the marker 30 characters in |
| Removal.StripNoMarker | main.go:151-152 | text without the marker is left unchanged |
| Removal.NoStartBefore | main.go:151-152 | marker-free text followed by a block holds no start delimiter before the block |
| Removal.StripFramed | main.go:151-152 | marker-free text followed by one or more stacked blocks strips back to that text, whatever the entries inside |
| Removal.RoundTrip | main.go:39-61 | for marker-free content, the strip at start, the append, and the strip at exit give back the content exactly |
| HostsOverride.ManagedAppend | main.go:129-141 | appending a block keeps the file as its base followed by framed text |
| HostsOverride.ManagedStrip | main.go:143-157 | stripping a managed file over marker-free content gives back that content |
| HostsOverride.Session.constructor | main.go:40 | the session starts on the file's text, with no entries, refresh off and not yet started |
| HostsOverride.Session.AppendOverrides | main.go:129-141 | the text is added at the end of the file; a block keeps the file managed |
| HostsOverride.Session.RemoveOverrides | main.go:143-157 | with a readable file the content becomes its strip, which holds no block; with an unreadable one nothing changes; marker-free content outside the block is kept |
| HostsOverride.Session.ParseAndAppend | main.go:88-104 | the block of the expansion is appended; nothing is appended on nil, on exit or on a rendering panic, and the status records the exit or panic |
| HostsOverride.Session.Start | main.go:37-43 | a parse panic leaves the file and the session's other state untouched; otherwise the entries and flag are stored, the file is stripped (so a block left by an unclean shutdown is gone) and then gets the new block; the status becomes active, exit code 1 or panicked; with an unreadable file the base is unchanged, including any stale block it still holds |
| HostsOverride.Session.Tick | main.go:48-57 | a tick strips and then appends the fresh block; after a readable tick the file is a block-free base plus at most that one block, and after an unreadable one the base is unchanged; the process stays active unless rendering panics |
| HostsOverride.Session.Refresh | main.go:45-58 | the file's text and the status after the ticks are exactly those of applying each tick in turn (strip when readable, then append the fresh block), stopping at the first panic; the file stays managed over the same marker-free base and the process ends active or panicked |
| HostsOverride.Session.Exit | main.go:60-61 | the block is stripped, no block is left when the file is readable, the base is unchanged when it is not, and the process ends with code 0 |
| HostsOverride.AfterTicksStatus | main.go:48-57 | the refresh ticks leave the process active or panicked, never exited |
| HostsOverride.RunSpecOutcomes | main.go:37-62 | a run ends with code 0, code 1 or a panic; a parse panic leaves the file untouched; a lookup failure without refresh exits with code 1 right after the start strip; without refresh, a start whose lookups succeed and whose entries all render ends with code 0 |
| HostsOverride.Run | main.go:37-62 | the file's text and the status at the end are exactly those of the run: parse, start strip and append, the refresh ticks while the process is active, then the exit strip with code 0; hence the outcomes above; a graceful exit with a readable file leaves a file that stripping does not change, and marker-free content comes back exactly |

## Left out

- `clearScreen` and all printing to standard output and standard error: no effect on the hosts file.
- `createHostsBackup` and `hostsFileLocation`: the backup file, the clock and the operating-system check are outside the hosts-file state that is modelled.
- `maybeIP` and `net.LookupIP`: modelled by the `Resolver` parameter (`isIP`, `lookup`). Real DNS and IP parsing are not modelled. Lookup answers may differ from tick to tick, through each tick's resolver. Within one expansion, however, `lookup` is a function, so two requests with the same target get the same addresses, whereas main.go:214 calls `net.LookupIP` once per request and could get different answers.
- `waitUntilExit`, the refresh ticker, the goroutine and signal handling: the model runs the ticks one after another and then exits. The unsynchronised race between a tick and the final strip is not modelled.
- The refresh interval and the cobra flag parsing, including `cobra.MinimumNArgs(1)`: the model takes the flag value and the arguments as parameters.
- HostsOverride.Session.AppendOverrides: does not model failures to open or write the file. The text is always appended.
- HostsOverride.Session.RemoveOverrides: a read failure is a parameter. Write failures and the file mode given to `WriteFile` are not modelled.
- HostsOverride.Run: admits an empty argument list, which `cobra.MinimumNArgs(1)` (main.go:36) rejects before the run starts; with no arguments the model strips the file and appends an empty block.
- HostsOverride.Run: the number of ticks before the signal is a parameter, and a panic is the `Panicked` status rather than Go's exit code 2.
- Strings are sequences of characters, not bytes; the regular expression's byte-level matching is modelled as matching on characters.
- `hosts-file.go` and `util.go` are not part of this model.
