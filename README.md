# cs-config-manager, modelled in Dafny

cs-config-manager manages a Counter-Strike `cfg` directory. A root file such
as `autoexec.cfg` pulls in other files with lines of the form
`exec "name"`. Each such line names the file `name.cfg` in the
configuration directory. The tool does three things with this tree of
included files:

- **compile**: flattens the tree into one `compiled.cfg`, placed beside the
  root file. Each include line is replaced by the compiled text it names,
  and the result carries a `// Compiled on <date>` header.
- **push**: uploads the tree to a GitHub gist. The gist gets a `README.md`
  with a timestamp, plus one gist file per included file. Each gist file is
  named by the included file's base name and begins with a
  `// <relative path>` line.
- **pull**: reads the gist back. Each gist file other than the README is
  written into the file its first line names.

The model covers the following parts of the tool:

- the include-line recogniser;
- the walk of the include tree;
- the compiler and `compile_and_write`;
- the fold that builds the push update;
- the pull parser and its writing loop.

The older copies of compile, push and pull in `main` are modelled as well.

## How the model is built

- **Directory.** The configuration directory is a `map<string, string>`
  from full path to contents (`FileSystem.Files`). Paths are
  '/'-separated strings. `Paths.PathJoin`, `Paths.Parent` and
  `Paths.FileName` follow `Path::join`, `Path::parent` and
  `Path::file_name` on such strings.
- **Reading.** `read_to_string` is a map lookup. A missing file is the
  error `FileNotFound`, which stands for the source's panic.
- **Lines.** `str::lines` is modelled exactly (`Text.Lines`):
  - the text is split on '\n';
  - a line ended by '\n' loses one final '\r';
  - an empty final segment is not a line.
- **Byte slices.** The slice `&s[3..]` is modelled exactly in UTF-8 bytes
  (`Text.DropPrefixBytes`). It fails where Rust panics: when the text has
  fewer than three bytes, or when byte 3 falls inside a character.
- **Include lines.** The regex `^exec "([^"]+)"|(.+)` counts as an include
  only when group 1 is captured. It is modelled as a string predicate
  (`Include.IsIncludeOf`) together with a name extractor
  (`Include.IncludeName`).
- **Walk and compile.** These are mutually recursive functions over the
  map.
  - The source recursion has no guard against an include cycle; it recurses
    until the stack runs out.
  - The model therefore threads the set of files being visited and reports
    re-entering one as `CyclicInclude`. The source has no such result; the
    error exists only so that the model terminates.
  - A file is looked up before the cycle check, as the source reads first.
- **Disk.** Changes of state go through the class `FileSystem.Disk`:
  - `compile_and_write` is the method `Compiler.CompileAndWrite`;
  - the pull loop is the method `Pull.PullConfig`.

  Each method is proved against a function: `Compiler.CompileOutput` for
  the first, `Pull.PullGist` for the second. The older pull loop in `main`
  is `Pull.PullAlwaysCreate`, proved against `Pull.PullAll`.
- **Push.** Push is pure. It computes the list of gist files it would send
  (`Push.GistBatch`), or that it sends nothing on a dry run
  (`Push.PushConfig`).
- **Gist.** The gist is a map from file name to content. `Gist.Updated`
  says which gist an update leaves: each entry creates or replaces the file
  of its name, and the other files stay. `Gist.GistAfter` computes it. Pull
  reads a listing of the gist's files (`Gist.Lists`), in any order.
- **Parameters.** The timestamp and the date are string parameters.

The code behaves as follows, and the model follows it:

- Push never deletes gist files. The update holds only create-or-replace
  entries, so `Push.GistBatch` has no deletion.
- In pull, `join_all` starts every gist file's task, and each task runs up
  to its first `await`, which is the open. So every header is parsed, and
  its `[3..]` slice taken, before any file is opened. A malformed header
  panics there and ends the pull before any file is written
  (`Pull.FirstMalformed`, `Pull.PullGist`).
- When every header parses, the opens and writes follow. A missing
  `update_only` target panics at its open and ends the pull; the files
  written before it stay. No per-file error is recorded, and nothing carries
  on after a panic.
- Pull does not check that the first three bytes of the header are `"// "`
  (`Pull.ParseIgnoresMarker`).
- Pull loses a file's final '\n' and turns "\r\n" line endings into "\n":
  the body is the lines after the header joined by "\n"
  (`Pull.ParseDropsFinalNewline`), which is why the round trip is stated
  for contents without '\r' and without a final '\n'.
- Pull writes without truncating. A shorter body leaves the old file's
  trailing bytes in place (`Pull.PullKeepsStaleTail`).
- `compiled.cfg` is written in the parent directory of the root file, not
  always in the configuration directory. It is the configuration directory
  when the root file is given by a plain name
  (`Compiler.CompileOutputFraming`).

## Model

| member | source | states |
|---|---|---|
| Text.Lines | src/compile.rs:31-32 | no line holds '\n', and there are no lines exactly when the text is empty |
| Text.LinesCons | src/pull.rs:44-45 | a '\n'-free first line followed by '\n' comes first, minus a final '\r', followed by the lines of the rest |
| Text.LinesSingle | src/main.rs:94-95 | a non-empty text without '\n' is one line, kept exactly |
| Text.LinesJoin | src/compile.rs:31-45 | `lines()` followed by `join("\n")` gives back exactly a text with no '\r' and no final '\n' |
| Text.LinesFinalNewline | src/pull.rs:46 | for a non-empty text with no '\r' that does not already end in '\n', appending one '\n' adds no line |
| Text.JoinSplit | src/compile.rs:44-45 | joining the segments of a split with the separator gives back the text |
| Text.Split | src/main.rs:94-95 | at least one segment, none contains the separator, and the empty text is exactly one empty segment |
| Text.SplitCons | src/pull.rs:44-45 | a separator-free head followed by the separator is the first segment |
| Text.SplitLastEmpty | src/main.rs:94-95 | the last segment is empty exactly when the text is empty or ends with the separator |
| Text.StripCr | src/pull.rs:44 | a line ending in '\r' loses exactly that '\r'; a line without '\r' is unchanged; nothing else is ever removed |
| Text.JoinWith | src/compile.rs:44-45 | joining no parts gives the empty text; otherwise the text starts with the first part |
| Text.DropPrefixBytes | src/pull.rs:45 | a successful `&s[n..]` drops exactly `n` bytes: the rest's byte length plus `n` is the text's byte length |
| Text.DropPrefixBytesSpec | src/pull.rs:45 | `&s[n..]` succeeds exactly when some prefix of `s` is `n` bytes long, and is then the text after that prefix |
| Text.DropPrefixBytesShort | src/pull.rs:45 | a text shorter than `n` bytes makes `&s[n..]` fail |
| Text.DropAsciiMarker | src/pull.rs:45 | dropping three bytes after three single-byte characters gives the rest of the text |
| Text.Utf8LengthConcat | src/pull.rs:58 | the byte length of a concatenation is the sum of the byte lengths |
| Paths.DirPrefix | src/main.rs:86 | the prefix `join` puts before a relative path: the base itself, or the base with one '/' added |
| Paths.PathJoin | src/main.rs:86 | the joined path is at least as long as the path, and at most the base, one '/' and the path |
| Paths.Parent | src/compile.rs:51 | a parent, when there is one, is shorter than the path |
| Paths.PathJoinShape | src/main.rs:86 | an absolute path replaces the base; a relative path joined to the base keeps the base in front and the path at the end |
| Paths.PathJoinInjective | src/pull.rs:47 | joining two relative paths to one base gives equal results only for equal paths |
| Paths.ParentOfJoin | src/compile.rs:51 | the parent of a plain name joined to a directory is that directory, without trailing '/' |
| Paths.FileName | src/push.rs:43-46 | a base name, when there is one, is a single normal component |
| Paths.FileNameOfLast | src/push.rs:43-46 | the base name of `dirs/name`, and of `name` alone, is `name` |
| Include.IncludeName | src/main.rs:84 | an extracted name is a non-empty, quote-free name with `exec "` before it and `"` after it, at the start of the line |
| Include.TargetsOf | src/main.rs:94-102 | at most one target per line, and every include line of `name` contributes the target `name + ".cfg"`; order and duplicates are fixed by the two lemmas below |
| Include.TargetsOfSingle | src/main.rs:94-102 | one line gives the target `name + ".cfg"` when it includes `name`, and no target otherwise |
| Include.TargetsOfAppend | src/main.rs:94-102 | the targets of consecutive blocks of lines are the first block's targets followed by the second's, duplicates kept |
| Include.IncludeTargets | src/main.rs:94-102 | a file has at most one target per line, and an empty file has none; the targets of its lines are `TargetsOf`, so their order is that of TargetsOfSingle and TargetsOfAppend |
| Include.IncludeNameExact | src/main.rs:96-100 | a line includes `name` exactly when it starts with `exec "`, then `name` (non-empty, with no `"`), then `"`; any text after the quote is ignored |
| Include.NotIncludes | src/compile.rs:28 | empty lines, lines not starting with `e` (such as indented ones), lines without the prefix, and `exec ""` are never includes |
| Include.IncludeLineRecognised | src/compile.rs:28 | `exec "name"` followed by any text includes `name` |
| FileSystem.ReadToString | src/main.rs:68-74 | the read succeeds exactly for a file that exists, gives its contents, and otherwise fails with FileNotFound for that path |
| FileSystem.Overwrite | src/pull.rs:63 | after writing at offset 0 without truncation, the file starts with the data, keeps the old bytes past the data, and is as long as the longer of the two |
| FileSystem.OverwriteSame | src/pull.rs:63 | rewriting a file with its own contents leaves it unchanged |
| FileSystem.Disk.CreateAndWrite | src/compile.rs:61-64 | `File::create` and a full write: the file holds exactly the data, and no other file changes |
| FileSystem.Disk.Open | src/pull.rs:50-55 | the open succeeds exactly when the file exists or may be created; a created file is empty; nothing else changes (there are no directories: every parent directory is taken to exist) |
| FileSystem.Disk.WriteAtStart | src/pull.rs:63 | the file becomes Overwrite of its old contents, and no other file changes |
| Walker.Walk | src/main.rs:82-107 | a successful walk is of a file that exists and is not already being walked, and has an entry for the file plus at least one per include target |
| Walker.WalkAll | src/main.rs:101-104 | a successful walk of the targets has at least one entry per target |
| Walker.IncludedFiles | src/main.rs:82-92 | a missing root fails with FileNotFound for its path; a successful walk starts with the root, its relative path and its full contents |
| Walker.WalkHead | src/main.rs:86-92 | a missing file fails the walk with FileNotFound (no partial result); otherwise the first entry is the file itself, with its relative path and full contents |
| Walker.WalkFaithful | src/main.rs:86-92 | every entry of the walk holds the contents of the file at `cfg_dir` joined with its relative path |
| Walker.WalkAllFaithful | src/main.rs:101-104 | every entry of the walks of the targets holds the contents of its file |
| Walker.WalkUnfold | src/main.rs:89-106 | unfolding step (proof helper): a successful walk is the file, which exists and is not being walked already, followed directly by the walk of its include targets (`name + ".cfg"` for each include line, top to bottom, relative to `cfg_dir`) |
| Walker.WalkAllUnfold | src/main.rs:101-104 | unfolding step (proof helper): the walks of the targets are the first target's walk followed by the walks of the rest |
| Walker.WalkTargetsFollow | src/main.rs:93-106 | every include target of an entry appears later in the walk |
| Walker.WalkAllTargetsFollow | src/main.rs:101-104 | the walks of the targets contain every target, and every entry's targets appear after it |
| Walker.WalkFromEarlier | src/main.rs:93-106 | every entry after the first is an include target of an earlier entry |
| Walker.WalkAllFromEarlier | src/main.rs:101-104 | every entry of the walks of the targets is a target or is included by an earlier entry |
| Walker.ChainPrecedes | src/main.rs:93-106 | along an include chain, each next file appears after the entry that includes it |
| Walker.WalkPrecedesReachable | src/main.rs:93-106 | preorder: every file reachable from an entry by an include chain appears later than that entry |
| Walker.WalkCycleWitness | src/main.rs:89-106 | a walk entered along an include chain, with the chain's files as ancestors, reports CyclicInclude(p) only when the chain extends, include line by include line, to a file at `p` that occurs earlier on it |
| Walker.WalkCycleIsReal | src/main.rs:82-107 | CyclicInclude(p) from the root means a chain of include lines starting at the root reaches the file `p` twice |
| Walker.WalkLeaf | src/main.rs:89-106 | a file with no include lines walks to itself alone |
| Walker.DoubleIncludeTargets | src/main.rs:94-102 | two lines including `name` give the target `name.cfg` twice |
| Walker.WalkKeepsDuplicates | src/main.rs:93-106 | no deduplication: a file that includes `name` twice walks to itself followed by `name.cfg` twice |
| Compiler.ExecFilePath | src/compile.rs:22-24 | `get_exec_file_path`: the configuration directory's prefix followed by `name + ".cfg"` |
| Compiler.Compile | src/compile.rs:26-46 | a missing file fails with FileNotFound for its path; a compiled file exists and is not already being compiled |
| Compiler.CompileLine | src/compile.rs:33-42 | a line that includes no file is kept as it is; a line that includes `name` becomes the compiled text of `name.cfg` in the configuration directory |
| Compiler.CompileLines | src/compile.rs:31-45 | a successful compile has one output line per input line |
| Compiler.CompileLinesPointwise | src/compile.rs:31-45 | compiling succeeds exactly when every line does; then there is one output line per input line, a non-include line is kept verbatim in its position, and an include line's position holds the compiled text of its target |
| Compiler.CompileLinesNoIncludes | src/compile.rs:33-43 | lines without include lines are kept as they are |
| Compiler.CompileNoIncludes | src/main.rs:113-130 | a file without include lines compiles to its lines joined by "\n", which is the file itself when it has no '\r' and no final '\n' |
| Compiler.CompileDropsTrailingNewline | src/main.rs:113-130 | the trailing newline is dropped: `line + "\n"` compiles to `line` |
| Compiler.CompileEmptyFile | src/compile.rs:29-45 | an empty file compiles to the empty text, so including it leaves an empty line |
| Compiler.CompileAgreesWithWalk | src/main.rs:109-131 | compiling a file fails exactly when walking it fails, with the same error |
| Compiler.CompileCycleIsReal | src/compile.rs:26-46 | CyclicInclude(p) from compiling the root means a chain of include lines starting at the root reaches the file `p` twice |
| Compiler.CompileLinesAgreeWithWalkAll | src/compile.rs:31-45 | compiling lines fails exactly when walking their include targets fails, with the same error |
| Compiler.CompileOutput | src/compile.rs:48-53 | an output exists only for a root that compiles, and starts with the `// Compiled on` header |
| Compiler.CompileOutputFraming | src/compile.rs:49-53 | the output is `"// Compiled on " + date + "\n\n"` followed by the compiled root; it exists exactly when the root compiles and has a parent, and a compile error comes first; a root given by a plain name puts `compiled.cfg` in the configuration directory |
| Compiler.CompileSingleInclude | src/compile.rs:48-53 | a root made of the line `exec "name"` (name non-empty, without '"' or '\n'), whose path has a parent directory, where `name.cfg` is another file with no include lines, no '\r' and no final '\n', compiles to the header followed by exactly that file |
| Compiler.CompileAndWrite | src/compile.rs:48-67 | a failed compile changes nothing; a dry run changes nothing and reports the byte length of the framed output; otherwise `compiled.cfg` holds exactly the framed output and no other file changes |
| Compiler.CompileAndWriteAlways | src/main.rs:133-144 | the older version always writes the framed output to `compiled.cfg` beside the root and returns that path |
| Push.AddFiles | src/push.rs:34-56 | a successful fold keeps the entries already there and adds one entry per file; a failed fold fails with NoFileName |
| Push.AddFilesStep | src/push.rs:41-55 | unfolding step (proof helper): each fold step appends the entry for one file and goes on |
| Push.AddFilesOk | src/push.rs:43-48 | the fold succeeds exactly when every included file has a base name |
| Push.AddFilesLayout | src/push.rs:34-56 | the fold keeps the entries already there and appends one entry per file, in walk order |
| Push.AddFilesError | src/push.rs:43-46 | a failed fold reports NoFileName for the first file without a base name |
| Push.Batch | src/push.rs:36-56 | a successful update has one entry more than there are files, the README entry with the timestamp first; a failure is NoFileName |
| Push.BatchLayout | src/push.rs:37-55 | the update is the README entry `"# Compiled on " + ts + "\n\n"` first, then for the k-th file an entry named by its base name holding `"// " + path + "\n"` and the file's contents on disk |
| Push.BatchNames | src/push.rs:34-56 | the update's names are exactly `README.md` and the base names of the walk |
| Push.GistBatch | src/push.rs:34-56 | a missing root fails with FileNotFound; a successful update follows a successful walk, with the README entry first and one entry per walked file |
| Push.GistBatchLayout | src/main.rs:158-181 | the update exists exactly when the walk succeeds and every file has a base name; a failed walk fails the push with the same error |
| Push.PushDryRunSkips | src/push.rs:26-27 | a dry run succeeds without reading any file, even with the root file missing |
| Push.PushSendsBatch | src/push.rs:28-59 | otherwise push sends exactly the update built from the walk, or fails as building it does |
| Push.PushConfig | src/push.rs:25-66 | a dry run sends nothing; otherwise push sends an update exactly when the update can be built |
| Gist.GistAfter | src/push.rs:33-59 | the gist an update leaves when its same-name entries agree: each entry's name holds its content, and every file it does not name is kept |
| Gist.UpdatedUnique | src/push.rs:33-59 | an update leaves at most one gist |
| Gist.ListedFromUpdate | src/pull.rs:35-41 | when the update replaced every file the gist held, each listed file is an entry of the update and each entry is listed |
| Pull.Header | src/pull.rs:44-45 | the header of an empty gist file is its name; otherwise the content has lines, the header is the first of them, and it holds no '\n' |
| Pull.ParseDocument | src/pull.rs:44-45 | a failed parse reports MalformedHeader with the header line |
| Pull.ParseDocumentSpec | src/pull.rs:44-46 | parsing succeeds exactly when the header (the first line, or the name when there are no lines) has a three-byte prefix; the path is the header after it, and the body is the other lines joined by "\n" |
| Pull.ParseShortHeader | src/pull.rs:45 | a header shorter than three bytes fails with MalformedHeader |
| Pull.ParseRoundTrip | src/pull.rs:44-46 | the content push makes for a one-line path, with contents that have no '\r' and no final '\n', parses back to exactly that path and those contents |
| Pull.ParseDropsFinalNewline | src/pull.rs:44-46 | the same content plus a final '\n' parses to the contents without it |
| Pull.ParseIgnoresMarker | src/pull.rs:45 | any three single-byte characters in front of the path are dropped alike; the marker is not checked |
| Pull.ParseEmptyUsesName | src/pull.rs:45 | a gist file with no lines takes its path from its own name and has an empty body |
| Pull.FirstMalformed | src/pull.rs:41-45 | no error exactly when the header of every gist file other than the README parses; an error is MalformedHeader |
| Pull.PullStep | src/pull.rs:43-63 | the README changes nothing; a successful step removes no file and changes none but its target; a failure is MalformedHeader, or FileNotFound under `update_only` |
| Pull.PullAll | src/pull.rs:47-63 | a pull removes no file, and stops only at a malformed header or, under `update_only`, at a missing target |
| Pull.PullAllWellFormed | src/pull.rs:47-55 | when every header parses, a pull can stop only at a missing target |
| Pull.PullGist | src/pull.rs:29-68 | a malformed header anywhere fails the pull with MalformedHeader and changes no file; otherwise the pull is the gist files handled in the order given |
| Pull.PullGistWellFormed | src/pull.rs:41 | when every header parses, the pull handles, in order, the gist files other than the README |
| Pull.PullInOrder | src/main.rs:193-202 | the loop over the gist files leaves the disk, and returns the error, that PullAll gives for the files in the order given |
| Pull.PullConfig | src/pull.rs:29-68 | the pull parses every header first, then handles the files in order: it leaves the disk, and returns the error, that PullGist gives |
| Pull.PullAlwaysCreate | src/main.rs:192-202 | the older pull always creates missing files and never dry-runs; only a malformed header can stop it |
| Pull.PullOnlyMalformedStops | src/main.rs:196-201 | without `update_only`, the only error that stops a pull is MalformedHeader |
| Pull.WithoutReadme | src/pull.rs:41 | the README filter keeps only gist files of the input not named `README.md`, keeps every such file, and is no longer than the input |
| Pull.WithoutReadmeAppend | src/pull.rs:41 | filtering a concatenation filters each part and keeps them in order |
| Pull.WithoutReadmeSingle | src/pull.rs:41 | a single file is dropped exactly when it is named `README.md` |
| Pull.PullSkipsReadme | src/pull.rs:41 | skipping `README.md` inside the loop is the same as filtering it out first |
| Pull.PullStepEffect | src/pull.rs:47-63 | with `update_only` a missing target is FileNotFound and nothing is created; otherwise the target exists afterwards; a dry run leaves it as it was, or empty when new; a write puts the body at its start and keeps older bytes past the body; no other file changes |
| Pull.PullKeepsStaleTail | src/pull.rs:50-63 | pulling shorter contents over a longer file leaves the old trailing bytes after the new contents |
| Pull.PullAllFrame | src/pull.rs:50-55 | a pull never removes a file, changes no file that no gist file names, and with `update_only` creates no file |
| Pull.PullDryRunWritesNothing | src/pull.rs:50-61 | a dry run changes no existing file, and every file it creates is empty |
| Pull.PullStepWritesBody | src/pull.rs:63 | a body written over a target no longer than itself leaves exactly the body there |
| Pull.PullEntryStep | src/pull.rs:44-63 | a non-README gist file made as push makes it, for contents without '\r' and without a final '\n', a relative one-line path and a target no longer than the contents (or missing, its directory taken to exist), leaves the target holding exactly the pushed contents |
| Pull.PullEntries | src/pull.rs:40-65 | for non-README gist files made as push makes them, each with contents without '\r' and without a final '\n', a relative one-line path, equal paths carrying equal contents and no existing target longer than its contents (target directories taken to exist): the pull fails nowhere, restores every file's contents at its path, and changes no other file |
| RoundTrip.BatchNamesAgree | src/push.rs:41-55 | files read from one directory, with distinct base names other than README, give an update whose same-name entries agree, so it leaves a gist |
| RoundTrip.RestoreListed | src/pull.rs:42-63 | for included files with contents without '\r' and without a final '\n', a relative one-line path, a base name other than README.md, no existing target longer than the contents (target directories taken to exist) and equal paths carrying equal contents: pulling non-README gist files pushed for them fails nowhere, leaves each such file's path holding its contents, and changes no other file |
| RoundTrip.PullFromEntries | src/pull.rs:29-68 | under the same conditions on the included files (Returnable: contents without '\r' and without a final '\n', a relative one-line path, base name not README.md, no existing target longer than its contents; target directories taken to exist): pulling a listing that holds exactly the entries of a push update, in any order, fails nowhere, restores every included file and changes no other file |
| RoundTrip.BatchThenPull | src/push.rs:33-56 | for files read from the directory with contents without '\r' and without a final '\n', a relative one-line path, distinct base names other than README.md and no existing target longer than its contents (target directories taken to exist), when the update replaced every file the gist held: pulling any listing of the gist it leaves fails nowhere, restores each file at its relative path and changes no other file |
| RoundTrip.PushThenPull | src/push.rs:34-56 | push followed by pull of the gist the update leaves, when the update replaced every file the gist held, the included files have distinct base names other than README.md, contents without '\r' and without a final '\n', a relative one-line path, no existing target longer than its contents, and every target's directory exists under the pull directory: every included file is written back at its relative path under the pull directory with the contents it has under the configuration directory; nothing fails and no other file changes |

## Left out

- Command-line parsing and the `main` dispatch: these are plumbing.
- The GitHub client: authentication, `send`, `get`, and the reported sizes
  and URL. It is a network library. Push ends with the update it would
  send; pull starts from the gist's files.
- Push.GistBatch: when two included files share a base name, which gist
  entry wins depends on the gist builder and the server. The update is a
  sequence in fold order. `Gist.Updated` describes no gist when entries of
  one name disagree, and `Gist.GistAfter` requires that they agree.
- RoundTrip.PushThenPull: assumes the update replaces every file the gist
  held before, and that the included files have distinct base names. Stale
  gist files from earlier pushes, and base-name collisions, are outside the
  round trip.
- Pull.PullConfig: `join_all` runs the gist files concurrently. After the
  header pass the model handles them one after another, in the order given.
  Two gist files writing the same path race in the source; the model writes
  them in order.
- Pull.PullGist: a malformed header leaves the files unchanged in the
  model. In the source, opens already started by earlier tasks may still
  create empty files after the panic.
- Pull.ParseDocument: a gist file with no `content` is an `unwrap` panic in
  the source. The model always has content.
- The local clock: the timestamp and the date are parameters.
- The logging, and the byte counts it reports. `Compiler.CompileAndWrite`
  still returns the byte length that the dry-run message reports.
- FileSystem.Disk.Open: the directory is a flat map from path to contents,
  with no directories. In the source, opening with `create` a file whose
  parent directory does not exist fails, and the `unwrap` panics (for
  example a header `// binds/buy.cfg` when `binds/` is missing under the
  pull directory). `Pull.PullStep`, `Pull.PullStepEffect`, `Pull.PullAll`,
  `Pull.PullOnlyMalformedStops`, `Pull.PullAlwaysCreate`,
  `Pull.PullEntries`, `RoundTrip.RestoreListed`,
  `RoundTrip.PullFromEntries`, `RoundTrip.BatchThenPull` and
  `RoundTrip.PushThenPull` therefore assume every target's directory
  exists.
- Compiler.CompileAndWrite: assumes `write` writes the whole buffer, as does
  `Pull.PullConfig`. Short writes and write or create failures are not
  modelled.
- FileSystem.Overwrite: keeps old bytes past the new data counted in
  characters, not bytes. This is exact for ASCII files only.
- Paths.Parent: works on the string and does not drop "." components the
  way `Path::components` does.
- Both `Path::join` and `Path::parent` work on '/'-separated strings only.
- FileSystem.ReadToString: `read_to_string` panics on a file that is not
  valid UTF-8. The directory maps paths to strings, so such a file cannot
  be represented.
- `to_str().unwrap()` on paths: paths are strings here, so a path that is
  not valid UTF-8 is not modelled.
- The source reads each walked file twice (the two `read_to_string` calls in
  `get_included_files`). The model reads it once.
- CyclicInclude: the source never returns it. On an include cycle the
  source recurses without end. The model reports the cycle instead, and
  only for a real one (`Walker.WalkCycleIsReal`,
  `Compiler.CompileCycleIsReal`); that every cycle reachable from the root
  is reported is not stated.
