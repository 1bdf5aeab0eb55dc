# wcli shell core in Dafny

A model of the deterministic core of wcli, a shell simulator that runs in the browser. A line
typed at the terminal is tokenized, built into a pipeline of commands joined by `|`, `&&`, `||`
and `;` with `<`, `>` and `>>` redirects, and executed against an in-memory file tree. The model
covers that path end to end:

- `PathResolver`: the path algebra (normalize, resolve, dirname, basename, join, relative).
- `Parser`: the quote- and escape-aware tokenizer, the pipeline builder (flags, operators,
  redirects) and glob expansion of `*` and `?`.
- `FileTree`, `Filesystem`, `FsStorage`: the virtual filesystem as an immutable tree of typed
  nodes with ordered children, its cwd, the default directories, and the stored form that
  `persist` and `load` round-trip.
- `Executor`: the command registry, the environment, the pipeline control flow, redirects,
  exit codes, and lookup of scripts on the filesystem.
- `Shell`, `Builtins` and one module per group of built-in commands: `FileCommands` (pwd, cd,
  ls, cat, mkdir, touch, rm, cp, mv), `FindCommand`, `TextCommands` (echo, clear, history,
  help, env), `WcCommand`, `AliasCommands` (alias, unalias), `PromptCommands` (ask, confirm,
  login, survey). Each command is a pure function from an `Invocation` (arguments, flags, stdin
  text, cwd, environment, filesystem, optional collaborators) to an `Outcome` (exit code, stdout
  text, new filesystem and environment).
- Small state machines as immutable values with pure transitions: `Streams`, `AliasManager`,
  `PromptManager` (the single prompt slot), `DefaultHistory` and the `InputHandler` history
  cursor with its autocomplete and delete-word text edits, `EventEmitter`, `MemoryAdapter`,
  `Config`, and `Terminal` (the line log and the prompt string).
- `BitmapFont`: glyph lookup, text measurement and rendering into a 0/1 frame of exactly the
  measured size.

Conventions: JavaScript's `undefined` output and error are the empty string (every consumer
tests them for truthiness); a mutable object becomes a value that each operation returns anew;
clock readings are a `now: nat` parameter; scripts found on the filesystem, prompt answers and
storage results are parameters supplied by the caller.

## Model

| member | source | states |
|---|---|---|
| PathResolver.Normalize | src/utils/PathResolver.ts:2-28 | the result starts with '/' and is '/' followed by the joined canonical segments: none empty, '.' or '..' |
| PathResolver.Resolve | src/utils/PathResolver.ts:30-39 | a resolved path is always rooted |
| PathResolver.StripTrailingSlash | src/utils/PathResolver.ts:3-6 | dropping one trailing '/' does not change which segments the path names |
| PathResolver.CommonPrefixLength | src/utils/PathResolver.ts:71-75 | the count is the longest common segment prefix: equal up to it, different (or one list exhausted) right after |
| PathResolver.CollapseUps | src/utils/PathResolver.ts:17-21 | k '..' segments pop k segments |
| PathResolver.NormalizeIdempotent | src/utils/PathResolver.ts:2-28 | normalize(normalize(p)) == normalize(p) |
| PathResolver.NormalizeSegments | src/utils/PathResolver.ts:2-28 | normalising keeps the segments, which are canonical; the result is '/' exactly when there are none |
| PathResolver.NormalizeRootRelative | src/utils/PathResolver.ts:13-27 | relative input is read as root-relative: 'foo' and '/foo' normalise alike |
| PathResolver.NormalizeDotDot | src/utils/PathResolver.ts:17-21 | a trailing '..' pops the last segment, and is absorbed at the root |
| PathResolver.NormalizeToRoot | src/utils/PathResolver.ts:8-11 | '', '/.' and '/..' all normalise to '/' |
| PathResolver.ResolveAbsolute | src/utils/PathResolver.ts:31-34 | an absolute path resolves to its normal form whatever the working directory |
| PathResolver.ResolveRelative | src/utils/PathResolver.ts:36-38 | a relative path is normalised after the working directory and a '/', and its parts are applied on top of the cwd's segments |
| PathResolver.CanonicalJoinInjective | src/utils/PathResolver.ts:27 | two canonical segment lists give the same path exactly when they are equal |
| PathResolver.DirnameBasename | src/utils/PathResolver.ts:41-56 | dirname and basename split the normalised path at its last '/': '/' for the root or a single segment, '' as basename of the root |
| PathResolver.JoinDirnameBasename | src/utils/PathResolver.ts:41-61 | join(dirname(p), basename(p)) == normalize(p) |
| PathResolver.RelativePartsShape | src/utils/PathResolver.ts:77-80 | the parts of a relative path are some '..' then canonical segments, and there are none only for equal paths |
| PathResolver.CollapseRelativeParts | src/utils/PathResolver.ts:67-83 | applying the parts of relative(f, t) to f yields t |
| PathResolver.RelativeDotIffSame | src/utils/PathResolver.ts:82 | relative is '.' exactly when both paths normalise to the same place |
| PathResolver.RelativeRoundTrip | src/utils/PathResolver.ts:67-83 | resolving relative(from, to) against from leads back to normalize(to) |
| PathResolver.ResolveRooted | src/utils/PathResolver.ts:30-39 | a resolved path is the rooted join of its own segments |
| Parser.Flush | src/core/CommandParser.ts:49-52 | a non-empty token in progress is pushed and the buffer emptied; an empty one pushes nothing |
| Parser.Tokenize | src/core/CommandParser.ts:9-125 | no token is ever empty |
| Parser.LexWord | src/core/CommandParser.ts:117 | outside quotes, ordinary characters accumulate into the token in progress |
| Parser.LexEscape | src/core/CommandParser.ts:19-28 | a backslash escapes the next character in every state, inside quotes too, and is itself never emitted |
| Parser.LexTrailingBackslash | src/core/CommandParser.ts:25-28 | a trailing backslash is dropped |
| Parser.LexQuotedBody | src/core/CommandParser.ts:30-46 | inside quotes every character but the open quote kind and the backslash is kept, operators and blanks included |
| Parser.LexQuoted | src/core/CommandParser.ts:30-46 | a quoted region contributes its body and never its quotes |
| Parser.EmptyQuotesNoToken | src/core/CommandParser.ts:30-122 | `""` yields no token at all |
| Parser.LexDoubleOperators | src/core/CommandParser.ts:48-93 | `&&`, the double bar and `>>` end the token in progress and are consumed as one token |
| Parser.LexSingleOperators | src/core/CommandParser.ts:58-107 | the single bar, `;`, `>` and `<` end the token in progress and stand alone, so `;;` and `<<` are two operators each; a single `&` is ordinary text |
| Parser.LexSeparator | src/core/CommandParser.ts:109-117 | only ' ' and '\t' separate tokens |
| Parser.TokenizeWords | src/core/CommandParser.ts:9-125 | words of ordinary characters joined by single spaces tokenize back to the words |
| Parser.BuildPipeline | src/core/CommandParser.ts:127-218 | every redirect's commandIndex is at most the number of commands; operators are at least commands − 1; every command has a non-empty name and no flag-like argument |
| Parser.RedirectTakesNextToken | src/core/CommandParser.ts:142-161 | the token after a redirect operator is its target whatever it is, tagged with the index of the command being built |
| Parser.OperatorsWithoutRedirects | src/core/CommandParser.ts:163-178 | without redirects, every operator token appends exactly one operator, in order |
| Parser.LeadingOperator | src/core/CommandParser.ts:163-178 | a leading operator closes nothing, so the operators outnumber or equal the commands |
| Parser.FlagWithValue | src/core/CommandParser.ts:181-189 | `-name=value` and `--name=value` set name to the text up to the next '=' |
| Parser.FlagWithoutValue | src/core/CommandParser.ts:181-192 | a flag without '=' is true under its name, one or two dashes removed |
| Parser.FlagExamples | src/core/CommandParser.ts:181-192 | `-la` is the single flag `la`; `--name=v=w` sets name to "v" |
| Parser.ParseGlob | src/core/CommandParser.ts:220-229 | exactly the files the anchored regular expression accepts, none added |
| Parser.ExpandGlobs | src/core/CommandParser.ts:231-248 | expansion never loses an argument |
| Parser.GlobRegexTranslates | src/core/CommandParser.ts:222-225 | the three chained replacements act character by character |
| Parser.TranslateMatches | src/core/CommandParser.ts:222-228 | for backslash-free patterns, the regular expression matches exactly what the glob (`?` one character, `*` a run) matches |
| Parser.ParseGlobIsGlobFilter | src/core/CommandParser.ts:220-229 | parseGlob keeps, in file order, exactly the matching files |
| Parser.GlobLiteral | src/core/CommandParser.ts:222-228 | a pattern without wildcards matches only itself |
| Parser.GlobStar | src/core/CommandParser.ts:224 | `*` matches a run of any length free of line terminators |
| Parser.ExpandGlobsPlain | src/core/CommandParser.ts:242-244 | arguments without wildcards pass through unchanged |
| Parser.ExpandGlobsHead | src/core/CommandParser.ts:235-241 | a glob argument becomes its matches in file order, or stays verbatim when none match |
| FileTree.FindChild | src/core/Filesystem.ts:47 | a key is found exactly when some entry has it |
| FileTree.SetChild | src/core/Filesystem.ts:113 | setting an existing key keeps the key order; a new key is appended last |
| FileTree.RemoveChild | src/core/Filesystem.ts:137 | deleting never grows the entries, and deleting an absent key changes nothing |
| FileTree.FindSetChild | src/core/Filesystem.ts:113 | after a set, the key reads the new node and every other key reads as before |
| FileTree.SetChildUnique | src/core/Filesystem.ts:113 | a set keeps the keys unique |
| FileTree.FindRemoveChild | src/core/Filesystem.ts:137 | after a delete, the key is absent and every other key reads as before |
| FileTree.RemoveChildUnique | src/core/Filesystem.ts:137 | a delete keeps the keys unique and adds no entry |
| FileTree.RemoveChildAt | src/core/Filesystem.ts:137 | deleting a present key removes exactly its entry; the others keep their order |
| FileTree.WalkReplaceAt | src/core/Filesystem.ts:43-54 | below a replaced position, lookups see the replacement |
| FileTree.WalkReplaceAway | src/core/Filesystem.ts:43-54 | lookups that leave the replaced position's branch see the old tree |
| FileTree.ReplaceAtValid | src/core/Filesystem.ts:6-7 | replacing a node by a valid tree keeps the whole tree valid (unique keys in every directory) |
| Filesystem.SetCwd | src/core/Filesystem.ts:70-72 | the stored cwd is normalised and rooted, unchecked for existence; the tree is untouched |
| Filesystem.GetNodeType | src/core/Filesystem.ts:208-212 | 'file' exactly for files, 'directory' exactly for directories, null exactly when nothing is there |
| Filesystem.LocateWalk | src/core/Filesystem.ts:33-64 | looking a path up walks the tree along the segments it resolves to against the cwd |
| Filesystem.RootIsDirectory | src/core/Filesystem.ts:36-38 | '/' is always the root, which exists and is a directory, whatever the cwd |
| Filesystem.FileOrDirectory | src/core/Filesystem.ts:179-206 | exists, isFile and isDirectory agree: a node is a file or a directory, never both |
| Filesystem.AbsoluteIgnoresCwd | src/core/Filesystem.ts:62-64 | an absolute path names the same node whatever the cwd |
| Filesystem.WriteFileFails | src/core/Filesystem.ts:89-114 | writeFile fails exactly when the parent is missing, the parent is a file or the target is a directory, each with its own message |
| Filesystem.WriteFileReadBack | src/core/Filesystem.ts:89-117 | after a successful writeFile(p, c), readFile(p) is c and the size is c's UTF-16 length; an overwrite keeps created, a new file is created now; modified is now |
| Filesystem.WriteFileFrame | src/core/Filesystem.ts:89-117 | a write changes nothing away from its target's branch |
| Filesystem.WriteFileEntries | src/core/Filesystem.ts:102-114 | the parent's listing is unchanged by an overwrite and gains the new name last for a new file |
| Filesystem.WriteFileValid | src/core/Filesystem.ts:89-117 | a write keeps every directory's names unique |
| Filesystem.WriteFileKeeps | src/core/Filesystem.ts:89-117 | a write removes nothing: every path that existed still does, as the same kind |
| Filesystem.WriteFileAway | src/core/Filesystem.ts:89-117 | a write to another path leaves every file as it was |
| Filesystem.WriteFileOnlyAdds | src/core/Filesystem.ts:111-114 | the only path a write brings into existence is its own target |
| Filesystem.FileWritable | src/core/Filesystem.ts:104-110 | an existing file can always be overwritten |
| Filesystem.OverwriteFile | src/core/Filesystem.ts:89-117 | overwriting an existing file succeeds and reading it back gives the new content |
| Filesystem.DirectoryNotWritable | src/core/Filesystem.ts:105-107 | writing to a directory fails with "Cannot write to directory" |
| Filesystem.WriteToRoot | src/core/Filesystem.ts:89-114 | writing to '/' succeeds by adding an entry named '' to the root that no path reaches, and '/' still reads as a directory |
| Filesystem.CreateDirFails | src/core/Filesystem.ts:156-171 | createDir fails exactly when the parent is missing or a file, or the name is taken, each with its own message |
| Filesystem.CreateDirAdds | src/core/Filesystem.ts:156-177 | a successful createDir adds exactly one empty directory, appended to its parent's listing |
| Filesystem.CreateDirFrame | src/core/Filesystem.ts:156-177 | createDir changes nothing away from its target's branch |
| Filesystem.CreateDirValid | src/core/Filesystem.ts:156-177 | createDir keeps names unique and the cwd as it was |
| Filesystem.CreateDirKeeps | src/core/Filesystem.ts:156-177 | createDir removes nothing and changes no node's kind |
| Filesystem.CreateDirOnlyAdds | src/core/Filesystem.ts:173-174 | the only path createDir brings into existence is its own target |
| Filesystem.FileDeletable | src/core/Filesystem.ts:119-139 | an existing file can always be deleted |
| Filesystem.NonEmptyNotDeletable | src/core/Filesystem.ts:133-135 | deleting a directory with entries fails with "Directory not empty" |
| Filesystem.DeleteFileFails | src/core/Filesystem.ts:119-139 | deleteFile fails exactly when the parent is missing or a file, the entry is missing, or it is a non-empty directory; empty directories go like files |
| Filesystem.DeleteFileRemoves | src/core/Filesystem.ts:137 | a successful delete removes a path that existed |
| Filesystem.DeleteFileEntries | src/core/Filesystem.ts:137 | the parent keeps its other entries, in order |
| Filesystem.DeleteFileFrame | src/core/Filesystem.ts:119-139 | a delete changes nothing away from its target's branch |
| Filesystem.DeleteFileValid | src/core/Filesystem.ts:119-139 | a delete keeps every directory's names unique |
| Filesystem.DeleteFileKeepsAbsent | src/core/Filesystem.ts:119-139 | a delete brings nothing into existence |
| Filesystem.DeletedIsLeaf | src/core/Filesystem.ts:128-135 | what a delete removes is a file or an empty directory |
| Filesystem.DeleteFileAway | src/core/Filesystem.ts:119-139 | a delete leaves every other file as it was |
| Filesystem.ReadDirResult | src/core/Filesystem.ts:141-154 | readDir lists the names in insertion order, and fails with its own message on a missing path or a file |
| Filesystem.SetCwdResolves | src/core/Filesystem.ts:62-72 | relative paths are read against the stored cwd |
| Filesystem.CreateTopLevel | src/core/Filesystem.ts:156-177 | a top-level name not yet present can always be created |
| Filesystem.EnsureDirsOk | src/core/Filesystem.ts:271-277 | creating top-level directories in turn: all succeed, and everything that existed stays |
| Filesystem.EnsureDirsPresent | src/core/Filesystem.ts:273-277 | directories that exist already are not created again |
| Filesystem.InitializeDefaultStructureEnsures | src/core/Filesystem.ts:269-283 | /home, /bin, /etc and /tmp exist afterwards, nothing that existed is lost, and the cwd is /home |
| Filesystem.InitializeDefaultStructureIdempotent | src/core/Filesystem.ts:269-283 | running it a second time changes nothing |
| FsStorage.TimeToText | src/core/Filesystem.ts:223-224 | a stored timestamp is a non-empty run of digits |
| FsStorage.TextToTime | src/core/Filesystem.ts:237-238 | text reads as a timestamp exactly when it is a non-empty run of digits |
| FsStorage.Serialize | src/core/Filesystem.ts:215-227 | the stored record keeps the name; files carry content and no children, directories children and no content, one per entry |
| FsStorage.SerializeAll | src/core/Filesystem.ts:220 | the stored entries keep the keys in order |
| FsStorage.Load | src/core/Filesystem.ts:256-267 | a missing record or a storage error leaves the filesystem as it was |
| FsStorage.TimeRoundTrip | src/core/Filesystem.ts:223-238 | a timestamp reads back as itself |
| FsStorage.MetaRoundTrip | src/core/Filesystem.ts:221-239 | metadata reads back as itself |
| FsStorage.SerializeRoundTrip | src/core/Filesystem.ts:215-241 | deserializeNode(serializeNode(n)) is n: names, kinds, contents, child order and metadata |
| FsStorage.SerializeAllRoundTrip | src/core/Filesystem.ts:220-234 | a stored child list reads back as itself |
| FsStorage.PersistLoad | src/core/Filesystem.ts:243-267 | loading what persist saved restores the tree and the cwd exactly, whatever the state before |
| MemoryAdapter.NewLists | src/adapters/MemoryAdapter.ts:9 | a new store lists no key |
| MemoryAdapter.Save | src/adapters/MemoryAdapter.ts:11-14 | saving an existing key keeps the listing; a new key is listed last |
| MemoryAdapter.Load | src/adapters/MemoryAdapter.ts:16-23 | null exactly for a key not in the listing |
| MemoryAdapter.Remove | src/adapters/MemoryAdapter.ts:25-27 | removing an absent key changes nothing |
| MemoryAdapter.Clear | src/adapters/MemoryAdapter.ts:36-38 | clear leaves no key |
| MemoryAdapter.LoadSave | src/adapters/MemoryAdapter.ts:11-23 | a saved value is what a later load returns; other keys are unaffected |
| MemoryAdapter.LoadRemove | src/adapters/MemoryAdapter.ts:16-27 | after remove, the key loads as null and every other key as before |
| MemoryAdapter.ListRemove | src/adapters/MemoryAdapter.ts:25-31 | remove deletes exactly that key from the listing, keeping the others' order |
| MemoryAdapter.SaveValid | src/adapters/MemoryAdapter.ts:9-14 | saving keeps the keys unique |
| Streams.Read | src/utils/Stream.ts:11-18 | the next character and one step on, or null (and no change) once the data is used up |
| Streams.ReadAll | src/utils/Stream.ts:20-24 | the unread suffix, after which the stream is exhausted; what was read plus it is the whole data |
| Streams.ReadInOrder | src/utils/Stream.ts:11-18 | k reads yield the next k characters in order, then null forever |
| Streams.ReadAllExhausts | src/utils/Stream.ts:11-24 | after readAll, read returns null and readAll the empty string |
| Streams.Write | src/utils/Stream.ts:31-36 | a write fails with "Stream is closed" exactly when the stream is closed, and otherwise appends the chunk |
| Streams.Clear | src/utils/Stream.ts:46-48 | clear empties the output and does not reopen a closed stream |
| Streams.WriteEachOutput | src/utils/Stream.ts:31-44 | the output is the concatenation of all writes, in order |
| Streams.WriteAfterClose | src/utils/Stream.ts:31-48 | every write after close fails, even after clear |
| Streams.PipeWrite | src/utils/Stream.ts:57-70 | a pipe write fails exactly when the pipe is closed, and otherwise appends the chunk |
| Streams.PipeReadNext | src/utils/Stream.ts:72-85 | a read returns the next unread chunk when there is one, end of stream exactly when none is left and the pipe is closed, and otherwise waits without changing anything |
| Streams.PipeReadAll | src/utils/Stream.ts:87-104 | readAll takes all unread chunks at once and completes only on a closed pipe |
| Streams.PipeClosedReads | src/utils/Stream.ts:72-85 | on a closed pipe, reads return the unread chunks in order and then end of stream |
| Streams.PipeWriteThenClose | src/utils/Stream.ts:57-111 | chunks written to an open pipe are delivered in order; after close, writes fail |
| Streams.EmptyIsEmptyString | src/utils/Stream.ts:118-126 | the empty stream reads exactly like a string stream over "" |
| AliasManager.Head | src/core/AliasManager.ts:37-38 | the head is the longest prefix free of ' ', and a ' ' follows it when it is not everything |
| AliasManager.Rest | src/core/AliasManager.ts:37-39 | head and rest make up the trimmed input, and the rest is empty or starts with ' ' |
| AliasManager.Unset | src/core/AliasManager.ts:61-63 | unset reports whether the alias existed, and changes nothing when it did not |
| AliasManager.Clear | src/core/AliasManager.ts:89-91 | after clear no alias exists, defaults included |
| AliasManager.DefaultAliases | src/core/AliasManager.ts:9-99 | after construction and after reset the table is exactly the ten built-in aliases, in order, each name once |
| AliasManager.ResolveBlank | src/core/AliasManager.ts:33-34 | blank input resolves to "" |
| AliasManager.ResolveCases | src/core/AliasManager.ts:32-49 | an alias with a non-empty value is replaced by that value followed by the rest; anything else gives the input back untrimmed |
| AliasManager.ResolveOnce | src/core/AliasManager.ts:42-46 | expansion happens once: an alias whose value is another alias name is not expanded again |
| AliasManager.ResolveTabInHead | src/core/AliasManager.ts:37-38 | only ' ' ends the head word, so a head holding a tab is looked up whole |
| AliasManager.SetGet | src/core/AliasManager.ts:54-70 | set then get returns the value; other names are unaffected; names stay unique |
| AliasManager.UnsetOnly | src/core/AliasManager.ts:61-84 | unset removes only that name |
| PromptManager.MessageOnlyFields | src/core/PromptManager.ts:24-26 | a string argument is shorthand for options with only that message |
| PromptManager.Prompt | src/core/PromptManager.ts:23-86 | with a prompt already active the request is rejected with "Another prompt is already active"; without a handler with "No prompt handler registered" and the slot stays free; otherwise the request waits in the slot |
| PromptManager.Respond | src/core/PromptManager.ts:37-97 | with no active prompt, respond throws "No active prompt"; otherwise it always frees the slot and resolves with the value verbatim exactly when there is no validator or it returns true, rejecting with the validator's message or "Invalid input" |
| PromptManager.Cancel | src/core/PromptManager.ts:68-106 | cancel rejects the active request and frees the slot, and does nothing when there is none |
| PromptManager.SingleSlot | src/core/PromptManager.ts:23-97 | while one prompt waits a second one bounces, respond settles the first, and the slot is free afterwards |
| DefaultHistory.LastN | src/core/DefaultHistoryManager.ts:34 | slice(-n) keeps the last n elements, and slice(-0) the whole list |
| DefaultHistory.At | src/core/DefaultHistoryManager.ts:40-42 | an index reads a value exactly when it is inside the list |
| DefaultHistory.Add | src/core/DefaultHistoryManager.ts:24-38 | blank commands and repeats of the last entry are ignored; otherwise the command becomes the last entry, the oldest beyond maxSize are dropped (none when maxSize is 0), and browsing stops |
| DefaultHistory.GetPrevious | src/core/DefaultHistoryManager.ts:44-56 | nothing on an empty history; from -1 the newest entry, otherwise one step back, sticking at the oldest; the entry returned is the one at the new position |
| DefaultHistory.GetNext | src/core/DefaultHistoryManager.ts:58-66 | at -1 or the newest entry browsing stops and "" is returned; otherwise one step forward and that entry |
| DefaultHistory.Search | src/core/DefaultHistoryManager.ts:72-75 | exactly the entries that contain the query, ignoring case |
| DefaultHistory.SearchAppend | src/core/DefaultHistoryManager.ts:72-75 | results keep history order: a new entry can only add a match at the end |
| DefaultHistory.Clear | src/core/DefaultHistoryManager.ts:77-80 | clear leaves no entry and stops browsing |
| DefaultHistory.Load | src/core/DefaultHistoryManager.ts:90-100 | only an array replaces the history (even beyond maxSize) and stops browsing; anything else, a storage error included, leaves it unchanged |
| DefaultHistory.PreviousThenNext | src/core/DefaultHistoryManager.ts:44-66 | a step back then forward returns to the same position, except from the oldest entry |
| DefaultHistory.PreviousWalk | src/core/DefaultHistoryManager.ts:44-56 | from the start, k steps back reach the k-th newest entry |
| DefaultHistory.PersistLoad | src/core/DefaultHistoryManager.ts:82-100 | loading what persist saved restores the entries, whatever the history held before |
| InputHandler.Add | src/ui/InputHandler.ts:8-13 | non-blank commands that differ from the newest entry are appended; the index always moves just past the newest entry |
| InputHandler.Get | src/ui/InputHandler.ts:15-17 | an index reads the entry exactly when it is inside the list |
| InputHandler.GetPrevious | src/ui/InputHandler.ts:19-25 | one step back and that entry while the index is positive; otherwise undefined and no move |
| InputHandler.GetNext | src/ui/InputHandler.ts:27-36 | one step forward up to the newest entry, then past it to the saved live input; beyond that undefined and no move |
| InputHandler.Search | src/ui/InputHandler.ts:38-40 | exactly the entries containing the query, case-sensitively |
| InputHandler.Reset | src/ui/InputHandler.ts:46-48 | the index moves just past the newest entry and the entries stay |
| InputHandler.SetCurrentInput | src/ui/InputHandler.ts:50-52 | only the saved live input changes |
| InputHandler.PreviousThenNext | src/ui/InputHandler.ts:19-36 | one step back and one forward return to the same place, showing the entry or the live input that was there |
| InputHandler.Assign | src/ui/InputHandler.ts:200 | assigning a new value to the field puts the caret at its end; assigning the same value leaves the field as it was |
| InputHandler.HistoryUp | src/ui/InputHandler.ts:194-202 | Up shows the previous entry, with the caret at its end when the text changed, and leaves the field otherwise; the live input is never saved, since the guard cannot hold once an entry was returned |
| InputHandler.HistoryDown | src/ui/InputHandler.ts:204-209 | Down shows the next entry or the live input, with the caret at its end when the text changed, and leaves the field when there is neither |
| InputHandler.Lcp | src/ui/InputHandler.ts:265-277 | the longest prefix common to every string of a non-empty list |
| InputHandler.CommonPrefix | src/ui/InputHandler.ts:265-277 | '' for no strings, the string itself for one, otherwise the longest common prefix |
| InputHandler.FindCommonPrefix | src/ui/InputHandler.ts:265-277 | the source's shortening loop computes the longest common prefix |
| InputHandler.Shorten | src/ui/InputHandler.ts:271-274 | the inner loop keeps every common prefix below the bound and stops once the next string starts with what is left, or nothing is left; a bound that already fits is kept |
| InputHandler.Unique | src/ui/InputHandler.ts:265-277 | the longest common prefix is unique, so the loop and the reference definition agree on every input |
| InputHandler.KeepBefore | src/ui/InputHandler.ts:289-299 | the cut drops exactly the longest trailing run of delimiters (or of non-delimiters) |
| InputHandler.DeleteWord | src/ui/InputHandler.ts:279-304 | the text before the cursor loses its trailing delimiters and then the word before them; the text after the cursor is kept and the cursor lands at the cut |
| InputHandler.DeleteWordShape | src/ui/InputHandler.ts:279-304 | deleting a word only shortens the text before the cursor, keeping a prefix of it |
| InputHandler.ReplaceLastWordSpec | src/ui/InputHandler.ts:228-232 | replacing the last space-separated part keeps everything up to the last space |
| InputHandler.CursorOf | src/ui/InputHandler.ts:215 | a cursor at 0 counts as the end of the input |
| InputHandler.Tab | src/ui/InputHandler.ts:211-263 | with stored suggestions Tab shows the next one cyclically; one answer replaces the word before the cursor; several are stored as whole lines with the word replaced; none changes nothing |
| InputHandler.TabCycles | src/ui/InputHandler.ts:218-221 | k Tab presses advance the suggestion index by k modulo the number of suggestions |
| InputHandler.RecalledCaretAtEnd | src/ui/InputHandler.ts:194-236 | after Up recalls a different line, the next Tab completes the last word of the whole recalled line, since the caret sits at its end |
| InputHandler.TabCycleCaret | src/ui/InputHandler.ts:216-221 | a cycling Tab press shows the next stored line with the caret at its end, since no setSelectionRange follows the assignment, and leaves the field alone when that line is already shown |
| EventEmitter.FirstIndex | src/core/EventEmitter.ts:23 | indexOf is -1 exactly for an absent listener, and otherwise the position of its first occurrence |
| EventEmitter.On | src/core/EventEmitter.ts:10-15 | on appends the listener to the event's list, creating the list if needed; duplicates are kept |
| EventEmitter.WithoutFirst | src/core/EventEmitter.ts:23-26 | the splice at indexOf leaves the list alone when the listener is absent and otherwise shortens it by one |
| EventEmitter.WithoutFirstRemovesOne | src/core/EventEmitter.ts:23-26 | the splice removes exactly one copy of a present listener |
| EventEmitter.WithoutFirstKeepsOrder | src/core/EventEmitter.ts:23-26 | the listeners before the first occurrence keep their places and those after it move up by one |
| EventEmitter.Off | src/core/EventEmitter.ts:20-28 | off removes the first occurrence of the listener and changes nothing when it is absent |
| EventEmitter.Emit | src/core/EventEmitter.ts:33-40 | an unknown event calls no listener |
| EventEmitter.RemoveAllListeners | src/core/EventEmitter.ts:45-51 | '' or no argument drops every event |
| EventEmitter.EmitAfterOn | src/core/EventEmitter.ts:10-40 | registration order is call order |
| EventEmitter.OnOthers | src/core/EventEmitter.ts:10-15 | registering for one event leaves every other event's calls alone |
| EventEmitter.OnThenOff | src/core/EventEmitter.ts:10-28 | removing a listener just added for the first time restores the list |
| EventEmitter.OffOthers | src/core/EventEmitter.ts:20-28 | off only touches its own event |
| EventEmitter.RemoveAllListenersEffect | src/core/EventEmitter.ts:45-51 | dropping one event silences it and leaves the others' listeners; dropping all silences every event |
| Config.DefaultValues | src/config/defaults.ts:6-16 | both flags on, initial path /home, HOME=/home, PATH=/bin and USER=user in that order, and no hooks |
| Config.MergeConfig | src/config/defaults.ts:21-34 | without an argument the defaults; otherwise each top-level property is the user's when given and the default's when absent |
| Config.GetSpread | src/config/defaults.ts:25-32 | an object spread holds the later object's value for every key it has and the earlier one's for the rest |
| Config.SpreadKeepsOrder | src/config/defaults.ts:25-32 | for keys that are not array indices, a spread lists the earlier object's keys first, in their order |
| Config.MergedEnv | src/config/defaults.ts:25-32 | env merges key by key, the user's values winning and unset default keys surviving; hooks likewise, over empty defaults |
| BitmapFont.GetGlyphOrder | src/utils/BitmapFont.ts:157-167 | the character's own glyph, else its uppercase form's, else the space glyph, else a blank 3×7 cell |
| BitmapFont.LowercaseFallsBack | src/utils/BitmapFont.ts:161-163 | a lowercase letter the font lacks is drawn with its uppercase glyph |
| BitmapFont.LayoutOf | src/utils/BitmapFont.ts:177-182 | spacing and line height default to 1; a number pads all four sides, an object its given sides, missing sides 0 |
| BitmapFont.ContentWidth | src/utils/BitmapFont.ts:188-197 | the content width is the widest line's width, or 0 |
| BitmapFont.Measure | src/utils/BitmapFont.ts:238-270 | the width is the widest line plus the side paddings; the height is one font height plus line gap per line, less one gap, plus the top and bottom paddings, so at least one font height |
| BitmapFont.MeasureText | src/utils/BitmapFont.ts:238-270 | the source's loops compute the reference size |
| BitmapFont.MeasureLines | src/utils/BitmapFont.ts:253-262 | the outer loop's running maximum is the widest line's width |
| BitmapFont.MeasureLine | src/utils/BitmapFont.ts:255-260 | the inner loop gives the line's width: its glyph widths plus one spacing between neighbours |
| BitmapFont.MaxUnique | src/utils/BitmapFont.ts:196 | a bound that is 0 or attained by some line is the maximum |
| BitmapFont.Blit | src/utils/BitmapFont.ts:220-224 | copying a glyph clips it to the frame, keeps the frame's shape, and changes only the cells it covers |
| BitmapFont.RenderLine | src/utils/BitmapFont.ts:213-227 | each character's glyph is copied and the pen moves right by the glyph's width and the spacing |
| BitmapFont.RenderLines | src/utils/BitmapFont.ts:211-230 | every line starts at the left padding, each next one a font height plus line gap lower |
| BitmapFont.TextToBitmap | src/utils/BitmapFont.ts:172-233 | the frame has exactly the measured height and width, and is 0 wherever no glyph cell was copied |
| BitmapFont.CharXClosed | src/utils/BitmapFont.ts:226 | character j starts after the widths of the earlier glyphs and j spacings |
| BitmapFont.LineYClosed | src/utils/BitmapFont.ts:229 | line k starts k times (font height plus line gap) rows below the first |
| BitmapFont.TextGlyphAt | src/utils/BitmapFont.ts:211-230 | the glyph of character j of line k is what the text shows in the rectangle at line k's row and character j's column |
| BitmapFont.TextPixelFrom | src/utils/BitmapFont.ts:211-230 | from line k's top row down, the text shows what the lines from k on show when drawn from there |
| BitmapFont.GlyphInFrame | src/utils/BitmapFont.ts:211-230 | each glyph cell that falls inside the frame appears at its line's row and its character's column |
| BitmapFont.LinePixelLeft | src/utils/BitmapFont.ts:213-227 | nothing of a line lies left of where it starts |
| BitmapFont.TextPixelAbove | src/utils/BitmapFont.ts:211-230 | nothing of the text lies above its first line |
| Shell.Abs | src/core/Filesystem.ts:62-64 | a command's path argument is resolved against the invocation's working directory |
| Shell.ResolveIsNormal | src/core/Filesystem.ts:33-34 | normalising an already resolved path, as the node lookup does, changes nothing |
| Shell.Resolved | src/core/Filesystem.ts:33-54 | a resolved path is looked up as itself; it has no segments exactly when it is the root, which always exists |
| Shell.DistinctResolved | src/core/Filesystem.ts:33-54 | two resolved paths reach the same node exactly when they are the same string |
| FileCommands.Pwd | src/commands/pwd.ts:8-19 | `pwd` prints the filesystem's working directory on a line and changes nothing |
| FileCommands.Cd | src/commands/cd.ts:8-43 | `cd` succeeds exactly when the target (the operand, else HOME, else /home) resolves to a directory, which becomes the working directory that `pwd` prints; a missing target and a file are reported by name and change nothing |
| FileCommands.CdThenLs | src/commands/cd.ts:36 | after a successful `cd`, `ls` with no operand lists the directory moved to, in sorted order |
| FileCommands.LsFileLineUnterminated | src/commands/ls.ts:24 | as written, the line printed for a named file operand has no newline at its end |
| FileCommands.Ls | src/commands/ls.ts:8-48 | `ls` succeeds exactly when its path exists; a directory's entries come out sorted, one per line, and a permutation of its children; a file named on the command line is printed as given with no newline after it; a missing path is reported by name; nothing changes |
| FileCommands.LsIntended | src/commands/ls.ts:22-26 | the intended `ls`: every file line, named or not, ends with a newline, and the rest is as in `ls` |
| FileCommands.LsIntendedAddsNewline | src/commands/ls.ts:24 | the program and the intended version differ only for a named file, where the intended one adds the missing newline |
| FileCommands.Terminated | src/commands/cat.ts:38-41 | a file's text gets a newline added only when it does not already end with one |
| FileCommands.Look | src/core/Filesystem.ts:179-206 | what `cat` learns of an operand: text exactly for a file, missing exactly when nothing exists there |
| FileCommands.CatFiles | src/commands/cat.ts:22-42 | the contents of the operands in order; the run succeeds exactly when every operand is a file |
| FileCommands.Cat | src/commands/cat.ts:8-49 | without operands stdin is copied; with operands the exit is 0 exactly when each resolves to a file; nothing changes |
| FileCommands.CatUpToFailure | src/commands/cat.ts:25-33 | output stops at the first operand that is not a file: the earlier contents, then that operand's diagnostic, nothing after |
| FileCommands.CatOne | src/commands/cat.ts:35-41 | one file operand prints its text, newline-terminated |
| FileCommands.CatAfterWrite | src/commands/cat.ts:22-44 | `cat` of a file just written prints the written text, newline-terminated |
| FileCommands.MkdirStep | src/core/Filesystem.ts:156-177 | creating an absent path adds a directory there and removes or changes nothing else |
| FileCommands.MkdirEachSpec | src/commands/mkdir.ts:17-26 | the loop removes nothing, changes no kind, creates only directories, and on success every operand was absent before and is a directory after |
| FileCommands.Mkdir | src/commands/mkdir.ts:8-33 | no operand is an error; otherwise the tree only grows by directories, and success means every operand was new and is now a directory |
| FileCommands.TouchStep | src/core/Filesystem.ts:89-117 | writing empty text to an absent path creates an empty file and keeps everything else |
| FileCommands.WriteKeepsAll | src/core/Filesystem.ts:89-117 | a successful write keeps every path, as the same kind |
| FileCommands.TouchEachSpec | src/commands/touch.ts:17-26 | existing files stay exactly as they were, directories stay, only empty files are created, and on success every operand exists |
| FileCommands.Touch | src/commands/touch.ts:8-33 | no operand is an error; otherwise existing operands are left alone and absent ones become empty files |
| FileCommands.RmStep | src/core/Filesystem.ts:119-139 | a successful delete removes the path (and what lies below it) and nothing else |
| FileCommands.RmEachSpec | src/commands/rm.ts:19-33 | the loop brings nothing into existence, removes nothing outside its operands, and on success every operand existed and is gone |
| FileCommands.Rm | src/commands/rm.ts:8-40 | no operand is an error; otherwise the operands are deleted in order with the same guarantees |
| FileCommands.RmDirectoryRefused | src/commands/rm.ts:27-30 | without -r a directory operand is refused with its message and the tree is unchanged |
| FileCommands.RmNonEmpty | src/core/Filesystem.ts:133-135 | with -r a directory that has entries is still refused, by the delete's own check, and the tree is unchanged |
| FileCommands.Cp | src/commands/cp.ts:8-42 | fewer than two operands, a missing source and a directory source are refused and change nothing; otherwise the source's text is written to the destination |
| FileCommands.CpCopies | src/commands/cp.ts:33-37 | after a successful copy the destination reads as the source did, the source is unchanged, and nothing was removed |
| FileCommands.CpIntoDirectory | src/core/Filesystem.ts:104-107 | copying onto an existing directory fails with the write's message and changes nothing |
| FileCommands.Mv | src/commands/mv.ts:8-45 | fewer than two operands, a missing source and a directory source are refused; otherwise the source's text is written to the destination and the source deleted |
| FileCommands.MvMoves | src/commands/mv.ts:28-40 | a move between two different paths completes: the destination reads as the source did and the source is gone |
| FileCommands.MvOntoItself | src/commands/mv.ts:29-38 | moving a file onto its own path succeeds and loses the file |
| FindCommand.LastPiece | src/commands/find.ts:19 | the piece a directory's pattern test sees holds no '/' |
| FindCommand.SearchCountsAll | src/commands/find.ts:4-39 | without a pattern the walk prints each node below a directory exactly once, the directory itself included, and nothing for a file |
| FindCommand.SearchFilters | src/commands/find.ts:19-36 | with a pattern the walk prints exactly the lines of the unfiltered walk whose last piece matches, in the same order |
| FindCommand.EntryDisplayLast | src/commands/find.ts:28 | a file entry's printed path ends in the entry's own name, so directories and files are matched on the same piece |
| FindCommand.EntryLocates | src/commands/find.ts:27-30 | the path built for an entry of a directory is normalised and names that directory's child with that name |
| FindCommand.EntryLocatesChild | src/commands/find.ts:26-31 | in a valid tree the path built for the i-th entry names the i-th child |
| FindCommand.IndexOfArg | src/commands/find.ts:61 | the first position holding the argument, or -1 exactly when it is absent |
| FindCommand.Find | src/commands/find.ts:46-78 | the exit is 0 exactly when the search path exists; a missing path is reported by name; a file prints nothing; nothing changes |
| FindCommand.FindListsAll | src/commands/find.ts:12-21 | without -name a directory search prints "." first and one line per node below it |
| FindCommand.RootDisplayDropsFirst | src/commands/find.ts:12 | from "/" a top-level directory is printed without its first character, because the slice skips a separator that is not there |
| FindCommand.ParsedFindHasNoPattern | src/commands/find.ts:61-62 | a parsed command line never passes "-name" as an argument, so find run from the command line never filters |
| TextCommands.Echo | src/commands/echo.ts:8-19 | `echo` exits 0 with one newline-terminated line, a bare newline for no arguments, and changes nothing |
| TextCommands.EchoRoundTrip | src/commands/echo.ts:12-13 | the printed line, without its newline, splits at spaces back into the arguments when none holds a space |
| TextCommands.Clear | src/commands/clear.ts:8-12 | `clear` returns the clear-screen sequence as output, writes nothing to stdout and changes nothing |
| TextCommands.History | src/commands/history.ts:8-29 | `history` exits 0 and changes nothing |
| TextCommands.HistoryLineCommand | src/commands/history.ts:21 | below ten thousand entries the number fits its column, so each command starts at the ninth character of its line |
| TextCommands.HistoryListsEntries | src/commands/history.ts:12-24 | an empty history prints the notice; otherwise the output splits into one line per entry, in order, each ending in its command |
| TextCommands.FindInfo | src/commands/help.ts:27 | the first command with the given name, or none exactly when no command has it |
| TextCommands.HelpListing | src/commands/help.ts:17-23 | the listing is a header, a blank line, one row per command in order, a blank line and the footer |
| TextCommands.Help | src/commands/help.ts:8-43 | `help` exits 0 exactly when there is no topic or some command has that name; an unknown topic is reported by name; nothing changes |
| TextCommands.HelpTopic | src/commands/help.ts:26-35 | help on a topic describes the first registered command of that name, with its usage |
| TextCommands.HelpListsCommands | src/commands/help.ts:15-23 | without a topic the output splits into the listing's lines |
| TextCommands.EnvListing | src/commands/env.ts:14-18 | with no arguments one KEY=VALUE line per variable |
| TextCommands.Assignment | src/commands/env.ts:25-27 | an argument holding '=' splits at its first '=' into a key without '=' and the rest, and joins back to the argument |
| TextCommands.EnvCommand | src/commands/env.ts:8-46 | `env` always exits 0; without an assignment among the arguments the environment is unchanged |
| TextCommands.EnvEachUnique | src/commands/env.ts:28 | assignments keep the variable names distinct |
| TextCommands.AssignmentOf | src/commands/env.ts:26-27 | `K=V` with no '=' in K assigns V to K, even when V holds '=' |
| TextCommands.EnvSets | src/commands/env.ts:24-30 | `env K=V` sets K to V, reports it, and leaves every other variable as it was |
| TextCommands.EnvShows | src/commands/env.ts:31-34 | a name that has a value prints NAME=VALUE |
| TextCommands.EnvSetThenGet | src/commands/env.ts:24-38 | a value one run sets is what a later run prints for that name |
| TextCommands.EnvListsAll | src/commands/env.ts:14-18 | without arguments every variable appears as KEY=VALUE, in key order |
| WcCommand.WordLength | src/commands/wc.ts:6 | the leading run of non-whitespace is maximal |
| WcCommand.CountText | src/commands/wc.ts:4-10 | lines are the newlines plus one for an unterminated last line, words are the maximal non-whitespace runs, bytes the UTF-8 length |
| WcCommand.SplitLength | src/commands/wc.ts:5 | splitting at a character gives one more piece than it occurs |
| WcCommand.WordsAreRuns | src/commands/wc.ts:6 | splitting the trimmed text at whitespace gives exactly one piece per maximal run of non-whitespace, none for blank text |
| WcCommand.ColumnsOf | src/commands/wc.ts:20-25 | a column shows when its own flag is set or neither other flag is, so at least one column always shows |
| WcCommand.GatherSpec | src/commands/wc.ts:48-68 | gathering succeeds exactly when every operand is a file, and then holds each file's counts in order |
| WcCommand.GatherFirstFailure | src/commands/wc.ts:51-59 | a failing run reports only the first operand that is not a file |
| WcCommand.Wc | src/commands/wc.ts:17-97 | stdin's counts with no operands; otherwise success exactly when every operand is a file, printing one row per file and a total row for several |
| WcCommand.WcReadsFiles | src/commands/wc.ts:49-62 | an operand is counted exactly when it names a file, and its counts are those of what the read returns |
| WcCommand.WcFirstFailure | src/commands/wc.ts:48-59 | a failing run prints the message for the first operand that is not a file and none of the earlier rows |
| WcCommand.TotalSplits | src/commands/wc.ts:65-67 | the total row sums each column over the files |
| WcCommand.LinesOfAppendedLine | src/commands/wc.ts:5 | appending a terminated line to terminated text adds exactly one line |
| AliasCommands.StripQuotes | src/commands/alias.ts:37 | at most one quote character is dropped from each end, each end on its own |
| AliasCommands.StripQuotesOfQuoted | src/commands/alias.ts:37 | a value wrapped in any two quote characters comes back unwrapped |
| AliasCommands.StripQuotesOfPlain | src/commands/alias.ts:37 | a value that neither starts nor ends with a quote is kept as it is |
| AliasCommands.AliasListing | src/commands/alias.ts:23-27 | one listing line per alias |
| AliasCommands.AliasListsAll | src/commands/alias.ts:19-28 | every alias is listed with its own value, in name order |
| AliasCommands.Alias | src/commands/alias.ts:8-58 | without an alias manager the command fails with its message; with none of the arguments an assignment the table is unchanged; with no arguments it exits 0 |
| AliasCommands.AliasEachShowOnly | src/commands/alias.ts:45-54 | arguments without '=' only read the table |
| AliasCommands.SetKeys | src/commands/alias.ts:44 | an accepted assignment defines its name and keeps every other name |
| AliasCommands.AliasEachSucceeds | src/commands/alias.ts:33-57 | `alias` succeeds exactly when every argument is accepted at its turn |
| AliasCommands.AliasSetThenShow | src/commands/alias.ts:34-49 | `alias name=value name` defines the alias and then shows it with its quotes stripped |
| AliasCommands.AliasNotFound | src/commands/alias.ts:50-52 | an undefined bare name ends the run with exit 1 and its message, table unchanged |
| AliasCommands.AliasEmptyName | src/commands/alias.ts:39-42 | an argument starting with '=' is refused before anything after it runs |
| AliasCommands.Unalias | src/commands/unalias.ts:8-37 | without an alias manager the command fails; -a restores the built-in aliases rather than emptying the table; no names is a usage error |
| AliasCommands.UnsetKeys | src/core/AliasManager.ts:63-66 | one removal drops exactly that name |
| AliasCommands.UnaliasEachSpec | src/commands/unalias.ts:28-36 | the run fails exactly when some name is missing at its turn; afterwards none of the names is defined and every other alias is untouched |
| AliasCommands.UnaliasRemoves | src/commands/unalias.ts:28-36 | `unalias name` of a defined alias removes exactly it and succeeds silently |
| PromptCommands.Settle | src/core/PromptManager.ts:23-106 | each prompt of a run is settled by the manager: a typed answer goes through `respond` and its validator, the cancel key rejects with the cancel message, a refused request rejects with its own message |
| PromptCommands.Caught | src/commands/ask.ts:31-40 | a cancelled prompt exits 130 with the command's notice; any other rejection prints "Error:" and its message and exits 1 |
| PromptCommands.Ask | src/commands/ask.ts:8-41 | without a prompt function or with no question the command fails with its message; nothing changes |
| PromptCommands.AskEchoes | src/commands/ask.ts:22-30 | whatever is typed is echoed back verbatim, and the question asked is the arguments joined by spaces |
| PromptCommands.Confirm | src/commands/confirm.ts:8-58 | without a prompt function or with no message the command fails with its message; nothing changes |
| PromptCommands.ConfirmIgnoresCase | src/commands/confirm.ts:29 | the validator ignores letter case |
| PromptCommands.ConfirmAnswers | src/commands/confirm.ts:24-56 | a normalised y or yes confirms with exit 0; n, no and the empty answer decline with exit 1, the default never being substituted; any other answer is refused by the validator and reported as an error |
| PromptCommands.Login | src/commands/login.ts:8-62 | without a prompt function the command fails; nothing changes |
| PromptCommands.UsernameRule | src/commands/login.ts:20-28 | a username is accepted exactly when it is not blank and has at least three UTF-16 code units |
| PromptCommands.PasswordRule | src/commands/login.ts:35-40 | a password is accepted exactly when it has at least six UTF-16 code units, and refused with the one message otherwise |
| PromptCommands.LoginSucceeds | src/commands/login.ts:16-51 | login succeeds exactly when both answers are typed and pass their validators, and then welcomes the typed username |
| PromptCommands.Survey | src/commands/survey.ts:8-68 | without a prompt function the command fails; otherwise the introduction is written before the first question |
| PromptCommands.AskFromSpec | src/commands/survey.ts:20-47 | asking succeeds exactly when every remaining question is answered, and the answers are what was typed, in question order |
| PromptCommands.SurveyEchoes | src/commands/survey.ts:49-57 | the four answers are echoed in the results block, in question order; one unanswered question makes the survey fail |
| PromptCommands.SurveyCancelled | src/commands/survey.ts:58-62 | cancelling at any question exits 130 with only the introduction and the notice |
| PromptCommands.AskFromStops | src/commands/survey.ts:20-47 | asking stops at the first question that does not settle well, with its rejection |
| Strings.ParseIntOfDigits | src/commands/survey.ts:30 | `parseInt(s, 10)` of a non-empty run of decimal digits is the number they denote |
| Strings.ParseIntOfNat | src/commands/survey.ts:30 | `parseInt(s, 10)` reads back any natural number written in decimal |
| PromptCommands.ExperienceAcceptsRange | src/commands/survey.ts:29-35 | the numbers 1 to 10 written in decimal pass the experience check |
| PromptCommands.ExperienceRule | src/commands/survey.ts:30-33 | the experience check accepts exactly the inputs whose leading integer lies in 1..10 |
| PromptCommands.ExperienceIgnoresTrailing | src/commands/survey.ts:30 | text after the leading digits is ignored, so "5 stars" passes |
| Builtins.Run | src/commands/index.ts:23-44 | the registered commands exit 0, 1 or 130; only `clear` returns output text; only the alias commands touch the alias table, only `env` the environment, and the commands that only read leave the filesystem as it was |
| Builtins.FromNameOfName | src/commands/index.ts:23-44 | each command is found again under the name it registers with |
| Builtins.NamesDistinct | src/commands/index.ts:46-50 | different commands register under different names, so registering the list loses none |
| Builtins.NamesInjective | src/commands/index.ts:23-44 | no two commands of the list share a name |
| Builtins.AliasesNeedManager | src/commands/alias.ts:10-15 | without an alias manager `alias` and `unalias` refuse with exit 1 and their message |
| Builtins.PromptsNeedManager | src/commands/ask.ts:11-14 | without a prompt manager the prompt commands refuse with exit 1 and their message |
| Executor.New | src/core/CommandExecutor.ts:10-17 | a new executor has no commands and an environment of HOME=/home, PATH=/bin and USER=user |
| Executor.RegisterThenGet | src/core/CommandExecutor.ts:19-25 | a registered command is the one found under its name, replacing any earlier one, and no other name changes |
| Executor.SetEnvThenGet | src/core/CommandExecutor.ts:254-260 | `getEnv` reads back what `setEnv` stored, and other keys are unaffected |
| Executor.RegisterEachFinds | src/commands/index.ts:46-50 | registering a list in order: an entry no other entry shares a name with is found under its name afterwards, and names no entry has are untouched |
| Executor.RegisterEachNamed | src/commands/index.ts:46-50 | when distinct entries have distinct names, every entry is found under its name after the loop and every other name is untouched |
| Executor.RegisterBuiltInsFinds | src/commands/index.ts:23-50 | after `registerBuiltInCommands` each listed built-in is found under its name, and the prompt commands, which the list leaves out, stay unregistered |
| Executor.BuiltinReplies | src/core/CommandExecutor.ts:130-141 | a built-in run by the executor returns rather than throws, exits 0, 1 or 130, writes nothing to stderr, and its stdout text and changes are the command's own |
| Executor.FirstOf | src/core/CommandExecutor.ts:114 | the first redirect of the requested direction, or none exactly when no redirect has it |
| Executor.FirstFound | src/core/CommandExecutor.ts:192-231 | the loop finds nothing exactly when no candidate offers a script |
| Executor.RunModule | src/core/CommandExecutor.ts:198-226 | a module that fails to evaluate gives exit 1 and a message naming the command, with nothing changed |
| Executor.Candidates | src/core/CommandExecutor.ts:186-190 | the paths tried are the name resolved against the cwd, then /bin/name, then /bin/name.js, in that order |
| Executor.FromFilesystem | src/core/CommandExecutor.ts:180-234 | the lookup gives no result exactly when none of the three paths holds a script with an execute function |
| Executor.Unregistered | src/core/CommandExecutor.ts:95-106 | an unregistered name that no path provides gives exit 127 and "Command not found" |
| Executor.Deliver | src/core/CommandExecutor.ts:145-163 | after an output redirect the exit is 0 with nothing to print exactly when the write succeeded; a failed write gives exit 1 and its message, with the filesystem as it was |
| Executor.Invoke | src/core/CommandExecutor.ts:108-177 | with an output redirect the stage either fails with exit 1 or ends with exit 0 and nothing to print, whatever the command returned |
| Executor.StageRedirects | src/core/CommandExecutor.ts:75 | a stage sees exactly the redirects carrying its own index |
| Executor.Stages | src/core/CommandExecutor.ts:58-84 | the loop stops short of the last stage only where an and-then operator follows a failure or an or-else operator a success; stopping at once keeps the previous result |
| Executor.Execute | src/core/CommandExecutor.ts:31-47 | a line with no command succeeds with no output and no change |
| Executor.AllStagesRun | src/core/CommandExecutor.ts:60-82 | with no and-then or or-else operator in the line every stage runs |
| Executor.AndThenAbortsLine | src/core/CommandExecutor.ts:65-67 | a failure before `&&` ends the whole line, later `;` stages included, and the line's result is the failure |
| Executor.PipeFeedsInput | src/core/CommandExecutor.ts:72-81 | after a pipe operator a stage reads exactly the previous stage's output, otherwise nothing |
| Executor.FirstScriptWins | src/core/CommandExecutor.ts:192-231 | the script run is the one at the first path that holds one |
| Executor.CommandNotFound | src/core/CommandExecutor.ts:95-106 | a name neither registered nor a script on any path exits 127 with "Command not found" and changes nothing |
| Executor.OverwriteWrites | src/core/CommandExecutor.ts:148-149 | a successful `>` leaves the stdout text as the file's content |
| Executor.AppendWrites | src/core/CommandExecutor.ts:150-156 | `>>` onto an existing file succeeds and adds the stdout text after the old content |
| Executor.AppendCreates | src/core/CommandExecutor.ts:152-155 | `>>` onto a missing path writes the stdout text as a new file |
| Executor.InputRedirect | src/core/CommandExecutor.ts:113-127 | a failed `<` read ends the stage with exit 1 before the command runs; a successful one replaces whatever the stage would have read |
| Executor.PlainInvoke | src/core/CommandExecutor.ts:166-177 | without redirects the stage's result is what the command returned, or exit 1 with the message if it threw |
| Executor.OverwriteRedirect | src/core/CommandExecutor.ts:143-164 | with `>` the stdout text becomes the file's content and the stage ends with exit 0 and nothing to print, or with exit 1 when the write fails |
| Executor.AppendRedirect | src/core/CommandExecutor.ts:150-157 | with `>>` on an existing file the stdout text is added after the old content and the stage ends with exit 0 and nothing to print |
| Executor.PipeIntoSecond | src/core/CommandExecutor.ts:58-84 | a two-stage pipe with no redirect on the second stage ends with the second stage run on the first stage's output, after the first stage's changes |
| Executor.CatCopiesInput | src/commands/cat.ts:13-19 | `cat` with no arguments succeeds and prints its stdin |
| Executor.PipeThroughCat | src/core/CommandExecutor.ts:73-76 | piping a command into `cat` with no arguments prints what the command printed |
| Executor.EnvIsShared | src/core/CommandExecutor.ts:130-138 | `env K=V` run through the executor stores the value in the shared environment, where `getEnv` and later commands see it |
| Executor.Single | src/core/CommandExecutor.ts:87-178 | running one stage, registered or not, never changes the registered commands |
| Terminal.New | src/core/Terminal.ts:13-17 | a new terminal has an empty log and an executor with no commands over its filesystem |
| Terminal.Block | src/core/Terminal.ts:39-68 | one command logs its input first, then an output line exactly when there is output and an error line exactly when there is an error, output before error |
| Terminal.ExecuteCommand | src/core/Terminal.ts:39-68 | a command adds one to three lines after the existing log, which is kept, the first being its input; the registered commands are kept |
| Terminal.ClearLines | src/core/Terminal.ts:88-90 | clearing empties the log and keeps the filesystem, environment and commands |
| Terminal.GetPrompt | src/core/Terminal.ts:96-100 | the prompt always ends in "$ " |
| Terminal.InputsOfBlock | src/core/Terminal.ts:41-61 | each command adds exactly one input line to the log |
| Terminal.SessionLogsEveryInput | src/core/Terminal.ts:39-82 | a session of n commands logs exactly n input lines, between n and 3n lines in all, and keeps what was logged before |
| Terminal.ResultIsLogged | src/core/Terminal.ts:47-61 | the text reaches the executor unchanged, and the lines logged after the input are exactly that result's output and error |
| Terminal.ClearThenExecute | src/core/Terminal.ts:88-90 | after clearing, the next command's input is the first line of the log |
| Terminal.PromptUser | src/core/Terminal.ts:96-100 | the prompt shows USER when it is set and non-empty and `user` otherwise, then the working directory |
| Terminal.PromptAfterSetUser | src/core/Terminal.ts:98 | a non-empty USER set through the executor shows in the next prompt |
| Terminal.FreshPrompt | src/core/Terminal.ts:96-100 | a fresh terminal's prompt is `user:` followed by the working directory |

## Left out

- `grep` and `exec`: both need a JavaScript regular-expression engine or evaluation of code; they are not registered in `Builtins`.
- `curl`, `view` and `code`: network access and JSON component descriptors for the UI.
- Evaluation of script modules and `PluginLoader`: a script found on the filesystem is handed to a caller-supplied function, text to module. That function says whether the module failed to evaluate, has no `execute`, or runs.
- Storage backends (IndexedDB, localStorage, the session manager) and the asynchronous calls into them: `persist` is the snapshot it would save, and `load` takes the storage's answer as a parameter.
- The DOM and UI layer: key and focus events, rendering, themes, the `onOutput` callback. The `InputHandler` model keeps only its history cursor and its text edits.
- Floating point and animation (matrix rain, dither panel, intro animation).
- Line ids and timestamps: `Date` values are a `now` counter supplied by the caller, and one reading serves a whole command line. `generateId` (random) is not modelled.
- Unicode details: `toLowerCase`, `\s` and trimming act on the ASCII range. `localeCompare` (in `env` and `alias` listings) and `Array.sort` become code-point order. A `Blob`'s size is the UTF-8 length over code points, and `String.length` counts UTF-16 code units.
- Regular-expression metacharacters other than `*`, `?` and `.` in glob and `find -name` patterns: the model treats every other character as itself.
- The waiting side of `PipeStream`: a `read` or `readAll` that would block reports that it would wait. The path where a waiting reader makes `write` deliver a chunk twice is not modelled.
- A stored node whose shape the typed tree cannot hold (a "file" without content, say): loading it gives no tree here, where the source would install the malformed node.
- The `catch` blocks around `execute` in `Terminal.executeCommand` and around the pipeline in `CommandExecutor.execute`: every step below them returns its errors as results, so they are never reached.
- `Terminal.initialize`: it only chains `load` and `initializeDefaultStructure`, which are modelled separately in `FsStorage` and `Filesystem`.
- `getAllCommands`, `getLines`, `getFilesystem` and the other plain getters: they return a field unchanged.
- find: the walk follows the tree's nodes. Where an entry's name is empty or holds '/' (only writing to "/" makes one), the source's path lookups part from the walk, and for the root's empty entry the source recurses forever. The lemmas that relate the walk to path lookups assume well-formed names.
- Executor.Single: its own contract says only that the registered commands are kept. What a stage computes is stated by `CommandNotFound`, `InputRedirect`, `PlainInvoke`, `OverwriteRedirect` and `AppendRedirect`, because one contract over every path of a stage is too costly for the solver.
- Config.Override: its contract is the case split of the spread operator for one property, and is not listed in the table.
- TextCommands.EnvSets: the environment is a map of its own keys, not a JavaScript object with a prototype. In the program `env __proto__=x` reports "Set __proto__=x" but stores nothing, because the object's `__proto__` setter ignores a string; the model stores it.
- TextCommands.EnvSetThenGet: for the same reason, after `env __proto__=x` the program prints "__proto__=[object Object]" for `env __proto__`, and a name inherited from `Object.prototype` such as `toString` prints its function text where the model reports "not found". The lemma holds for every other name.
- Executor.SetEnvThenGet: `this.env[key]` in `setEnv` and `getEnv` follows the prototype chain in the program, so `__proto__` is not stored and inherited names such as `toString` read a function. The model's environment has only its own keys, and the lemma holds for every name other than those of `Object.prototype`.
- MemoryAdapter.Load: the model's values are JSON data other than `null`. In the program a saved `null` (or `NaN`, which JSON turns into `null`) also loads as `null`, so "null exactly for a key not in the listing" holds only for such values.
- MemoryAdapter.LoadSave: the `JSON.parse(JSON.stringify(...))` copy on `save` and `load` is taken as the identity. That holds for JSON data; a `Date` comes back as a string, functions and `undefined` fields are dropped, and `save(k, undefined)` throws.
- EventEmitter.Emit: the listeners are taken to be the list registered when `emit` starts, each one run to completion. A listener that throws rejects `emit` and the later listeners never run, and `on` or `off` called by a listener during `emit` change the array the loop walks. Neither is modelled.
- Streams.Read: a `char` here is a Unicode scalar value, and `read` returns one. The program indexes UTF-16 code units, so a character outside the Basic Multilingual Plane is one `read` here and two surrogate halves in the program.
- Parser.ParseGlob: `?`, and `.` in the translated pattern, match one Dafny `char`, a Unicode scalar value. The program's regular expression has no `u` flag and matches one UTF-16 code unit, so for a file named with a character outside the Basic Multilingual Plane the program needs `??` where the model takes `?`. The same holds for `find -name`.
- Parser.ParseGlobIsGlobFilter: "one character" for `?` is one Unicode scalar value here and one UTF-16 code unit in the program, for the reason given for `Parser.ParseGlob`.
- Config.SpreadKeepsOrder: a JavaScript object lists keys that are array indices ("0", "42") first, in ascending numeric order, before its other keys in insertion order. The model keeps insertion order for every key, so the lemma holds of the program only for records without such keys. The default and user configurations name no such key.
- BitmapFont.LayoutOf: spacing, line height and padding are natural numbers here. The program accepts any number. A negative or fractional value either overlaps glyphs, where later writes win, or makes `Array(totalHeight)` or `Array(totalWidth)` throw a RangeError. The model does neither.
- BitmapFont.TextToBitmap: the font must satisfy `FontOk`, meaning every glyph has between 1 and 7 rows of one width, as the built-in 7x5 font does, and the layout numbers are natural numbers, as for `BitmapFont.LayoutOf`. In the program a taller glyph writes into the next line's band and a ragged glyph copies `undefined`. No caller in the program passes another font or a configuration.

## Findings

| source | as written | input that shows it | evidently intended | confidence | as-written member | corrected member |
|---|---|---|---|---|---|---|
| src/commands/ls.ts:24 | the or-operator in `args[0] OR path + '\n'` binds after the concatenation, so a file named on the command line is printed without a newline | with files a.txt and b.txt, `ls a.txt >> log; ls b.txt >> log` leaves `a.txtb.txt` in log | the newline added to whichever name is printed: the file's name on a line of its own, as every other `ls` line is | high; not executed | `FileCommands.Ls`, shown by `FileCommands.LsFileLineUnterminated` | `FileCommands.LsIntended`, related to it by `FileCommands.LsIntendedAddsNewline` |
