# files and jsonargs, modelled in Dafny

This project models two pieces of the `jsonargrs` utilities.

- **`files`** is a `find`-like tool. It walks the current directory recursively and sends every entry it finds through a channel. It does not descend into a directory whose base name matches an *ignore* pattern. It then prints the received entries whose base name matches an optional *select* pattern (`--matches`). The ignore pattern comes from `--ignore`, else from the `FILES_IGNORE_PATTERN` environment variable, else the default `^(\.git|\.hg|\.svn|_darcs|\.bzr)$`. An empty ignore pattern turns pruning off.
- **`try_collect`** is used by `jsonargs`. It maps a fallible function over an iterator and collects the results. It returns every unwrapped value in order, or the first error, and stops pulling items at that error.

## Modules

- `wrappers.dfy` (`Wrappers`): `Option` and `Result` as Rust has them.
- `files.dfy` (`Files`):
  - the file-system tree (`Node`), `DirEntry`, the configuration (`Cli`);
  - the ignore-source choice and `Cli::new` (`IgnoreSource`, `New`), and `is_match` (`IsMatch`);
  - the specification functions `Walk`/`WalkChildren` and `Selected`;
  - the imperative walker: a `Channel` class stands in for the `mpsc` sender, and `FilesInner`, `Files` and `Run` are methods proved against the specification functions.
- `walk_properties.dfy` (`WalkProperties`): a reference description of the tree (`Lookup`, `Unpruned`, `Reachable`, `Size`) and the lemmas that tie the walk to it.
- `jsonargs.dfy` (`JsonArgs`): `TryCollect` as a loop, with `Collect` as an independent recursive definition.

A path is its list of components. A compiled regular expression is a predicate on names (`string -> bool`). Compiling is a parameter `compile: string -> Result<Pattern, E>`. The file system is a finite tree whose children are listed in `read_dir` order. `WellFormed` requires that files have no children and that siblings have distinct names.

**A directory whose name matches the ignore pattern is still sent.** The early return at src/bin/files.rs:100-102 happens inside the child's own call to `files_inner`, and the parent's loop sends the child afterwards at line 117. Only its descendants are suppressed. `PrunedChildSentAlone` and `DefaultPruningExample` state this. The root is different: it is never sent, and a matching root sends nothing at all.

## Model

| member | source | states |
|---|---|---|
| `Files.IgnoreSource` | src/bin/files.rs:47-55 | The ignore text is `--ignore` if given, else the environment value if set, else the default pattern. An empty chosen text gives `None` (no pruning), and any result is non-empty. |
| `Files.New` | src/bin/files.rs:44-67 | `Cli::new`: fails exactly when compiling the chosen ignore text or the `--matches` text fails. The error returned is the ignore text's compile error if it has one, else the `--matches` text's. On success, the ignore pattern is the compiled ignore text (`None` when the chosen text is empty), the select pattern is the compiled `--matches` text (`None` only when `--matches` is absent; an empty text is compiled like any other), and the async flag is kept. |
| `Files.IsMatch` | src/bin/files.rs:124-134 | With no pattern, nothing matches. Taking the file name of a path that has none is a panic, so the caller must supply a non-empty path when a pattern is present. |
| `WalkProperties.IsMatchOnFileName` | src/bin/files.rs:124-133 | Two paths with the same last component match alike: only the file name is tested. |
| `Files.Channel.constructor` | src/bin/files.rs:90 | A new channel holds nothing sent. |
| `Files.Channel.Send` | src/bin/files.rs:117 | Sending appends the entry to what was already sent and changes nothing else. |
| `Files.FilesInner` | src/bin/files.rs:96-121 | Sequential `files_inner`: what it appends to the channel is exactly `Walk(path, n, ignore)`. The loop invariant says that after `i` children, the channel holds the old contents followed by the children-walk of the first `i` children. |
| `Files.Files` | src/bin/files.rs:86-94 | Receiving from a fresh channel after the walk yields exactly `Walk(root, tree, ignore)`. |
| `Files.Run` | src/bin/files.rs:69-83 | The filter loop with `continue` prints exactly `Selected(Walk(root, tree, ignore), matchre)`. |
| `WalkProperties.WalkSendsNothing` | src/bin/files.rs:100-104 | A walk whose own path matches the ignore pattern sends nothing, and neither does a walk on a non-directory. This includes the root. |
| `WalkProperties.WalkChildrenAppend` | src/bin/files.rs:105-119 | The loop's output over a list of children is the concatenation of its outputs over any split of that list, so the output is built child by child in read order. |
| `WalkProperties.WalkChildrenSingle` | src/bin/files.rs:116-117 | For one child, the loop sends the walk below the child first and then the child itself. |
| `WalkProperties.WalkBelowRoot` | src/bin/files.rs:96-121 | Every sent entry lies strictly below the walked path, so the root is never sent. |
| `WalkProperties.WalkSound` | src/bin/files.rs:96-121 | In a well-formed tree, every sent entry is reachable: it names a real node strictly below the root, with the right directory flag, and neither the root nor any directory between them matches the ignore pattern. |
| `WalkProperties.WalkCompleteAt` | src/bin/files.rs:96-121 | Conversely, every node strictly below the root is sent if neither the root nor any directory between them matches the ignore pattern. |
| `WalkProperties.WalkExactly` | src/bin/files.rs:96-121 | An entry is sent if and only if it is reachable. |
| `WalkProperties.WalkDistinct` | src/bin/files.rs:96-121 | In a well-formed tree no path is sent twice. With `WalkExactly`, every reachable node is sent exactly once. |
| `WalkProperties.WalkChildrenDistinct` | src/bin/files.rs:105-119 | The loop over children with distinct names sends no path twice. |
| `WalkProperties.WalkCountUnpruned` | src/bin/files.rs:96-121 | With pruning off, the number of sent entries is the number of nodes in the tree minus the root. |
| `WalkProperties.PrunedChildSentAlone` | src/bin/files.rs:100-117 | A child of a walked directory whose name matches the ignore pattern is still sent, but no entry below it is. |
| `WalkProperties.WalkPostOrder` | src/bin/files.rs:105-118 | Sequential order is post-order: an entry is always sent after every entry below it. |
| `WalkProperties.WalkChildrenPostOrder` | src/bin/files.rs:105-118 | The same holds for the loop over a directory's children. |
| `WalkProperties.SelectedMember` | src/bin/files.rs:73-78 | A received entry is printed if and only if the select pattern is absent or matches its file name. |
| `WalkProperties.SelectedAll` | src/bin/files.rs:74 | With no select pattern every received entry is printed, in order. |
| `WalkProperties.SelectedAppend` | src/bin/files.rs:73-80 | Filtering distributes over concatenation, so printing keeps the received order. |
| `WalkProperties.RunPrintsExactly` | src/bin/files.rs:69-80 | `run` prints exactly the reachable entries that the select pattern accepts: filtering the walk's output keeps the same entries as filtering the set of reachable entries. |
| `WalkProperties.DefaultPruningExample` | src/bin/files.rs:96-121 | `proj` holds `a.txt`, `.git/config` and `b/c.txt`. With the default ignore pattern, the walk sends `a.txt`, `.git`, `b/c.txt`, `b` in that order. `.git/config` is not sent. |
| `JsonArgs.TryCollect` | src/jsonargs.rs:89-95 | The result equals `Collect` of the mapped items. On success: every item was pulled, and the vector holds every unwrapped value in order. An empty input gives `Ok([])`. On error: it is the error of the last item pulled, all earlier items were `Ok`, and no item after it was pulled. The loop invariant: `buf` holds exactly the unwrapped values of the items handled so far. |
| `JsonArgs.CollectAllOk` | src/jsonargs.rs:90-94 | If every result is `Ok`, collecting gives `Ok` of the unwrapped values, with the same length and order. |
| `JsonArgs.CollectFirstErr` | src/jsonargs.rs:91-92 | If any result is `Err`, collecting gives the first one, never a partial vector. |

## Left out

- The async branch of `files_inner` (src/bin/files.rs:107-114): it spawns one thread per entry, so its output order is not deterministic. Only the sequential branch is modelled. The `is_async` flag is kept in `Cli` but not used by the walk.
- The `files` thread (src/bin/files.rs:91): the walk runs to completion before the receiver is read. This does not change which entries arrive or their order.
- Real file-system access: `is_dir`, `read_dir`, symlinks, and the panics of `read_dir(...).unwrap()` on read failures (src/bin/files.rs:104-106). The file system is an abstract finite tree.
- Regular expressions: compiling and matching belong to the `regex` crate. A pattern is an arbitrary predicate on names, and compile errors come from the `compile` parameter. `DefaultIgnoreMatches` writes out what the default pattern accepts, for the example only.
- Argument parsing and the environment (src/bin/files.rs:23-45), `env::var` and `current_dir`. `New` takes their values as already-read `Option<string>` values.
- Output formatting (src/bin/files.rs:79): `strip_prefix`, the lossy `display`, the leading `./`. `Run` returns the printed entries.
- `Files.Run`: names are Dafny strings, so the panic of the select filter's `to_str().unwrap()` (src/bin/files.rs:75) on a file name that is not valid UTF-8 is not modelled.
- `Files.Run`: the `isAsync` flag is ignored, and the walk is always the sequential one. With `--async` the source takes the threaded branch (src/bin/files.rs:107-114), whose output order the contract does not describe.
- `Files.Run`: like `FilesInner` and `Files`, it requires a non-empty root path when an ignore pattern is present. Run from `/` with any ignore pattern, the default included, the source panics in `file_name().unwrap()` (src/bin/files.rs:127-128) before anything is sent, and that panic is not modelled.
- The `Error` enum, `def_from!`, `_main` and `main` of src/bin/files.rs (lines 136-150).
- All of `main` in src/jsonargs.rs (lines 32-73): docopt, JSON decoding, handlebars templates, and spawning and joining child processes.
- The iterator behind `try_collect` is modelled as a finite sequence of items. A Rust iterator may be infinite, and then `try_collect` on an all-`Ok` input never returns; both callers (src/jsonargs.rs:38-45, 52-55) iterate finite vectors.
- `JsonArgs.TryCollect`: the mapping closure is a pure function, whereas Rust's `FnMut` may carry state between calls. `pulled` reports how many items were taken from the iterator, which is the number of closure calls.
- `Files.IsMatch`: the `to_string_lossy` conversion of the file name is not modelled; names are plain strings.
