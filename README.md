# dynsync watch-and-sync core, in Dafny

dynsync watches a directory tree with inotify and mirrors changed files to one or more
destinations with rsync. inotify does not recurse, and each event carries only a watch
descriptor and a bare file name. So the program keeps a registry from descriptor to
directory. It fills the registry by walking the tree at start-up and grows it whenever
a new directory appears. It turns each event back into a full path, drops names that the
ignore patterns match, and queues files that are finished. When the queue is non-empty it
hands the queue to rsync, once per destination, and then clears it.

This project models the bookkeeping of `main` and `do_sync` in `src/main.rs`, apart from
inotify, the filesystem and the rsync subprocess:

- `Registry` (registry.dfy): the `watchlist` map, the start-up walk (`Bootstrap`,
  `WalkLevel`, `ListSubdirs`) and the growth after a batch (`RegisterSubdirs`).
  `RegisterSubdirs` is proved against `RegisterAll` and `ListSubdirs` against
  `DirChildren`. `WalkLevel` and `Bootstrap` are proved against the set of directories
  reachable in the tree. The registry is proved to only grow.
- `Events` (events.dfy): the classifier of one event (`Classify`) and the loop over a
  batch (`ClassifyBatch`), proved against `Transfers` / `NewDirs`.
- `Sync` (sync.dfy): the file list, the rsync argument vector, and the loop over
  destinations (`DoSync`), proved against `Dispatched`.
- `WatchLoop` (watchloop.dfy): one iteration of the endless loop (`Step`).
- `Paths` (paths.dfy): paths as components after `.`, `Path::to_str`, and the directory tree.
- `Text` (text.dfy): `split_whitespace`, `join`, splitting at a separator.

Modelling choices:

- A path is the sequence of its components after the root `.`. `PathBuf::push` of a bare
  name appends one component.
- A component is an OS string: decoded characters and possibly raw bytes. When a component
  has raw bytes, `to_str` returns nothing.
- The descriptor `inotify_add_watch` returns is a function `wdOf` from path to descriptor.
  Distinct directories get distinct descriptors, and watching the same directory twice
  (the root is watched twice) gives the same one.
- `fs::read_dir` with `is_dir` is a `Tree`: a finite map from each existing directory to
  its listing.
- The ignore `RegexSet` is an optional predicate on names.
- What happens to each rsync attempt is an input, one `Spawn` per destination.

The model follows the code in these places, where a reader might expect otherwise:

- A directory that is moved into a watched directory is not watched. Only `is_create()`
  is checked for directories (src/main.rs:196).
- The file list is joined with `"\n"`, so it has no trailing newline (src/main.rs:81).
- A failed write to rsync's stdin makes `try!` return `Err` at once. The remaining
  destinations are not attempted and the queue is not cleared (src/main.rs:104). `main`
  then panics on the `unwrap` (src/main.rs:226). A failed spawn or a missing stdin only
  skips that destination.
- A new directory that disappears before it is watched makes `add_watch(..).unwrap()`
  panic (src/main.rs:222). It is not skipped.
- The exit status of rsync is discarded (`Ok(_) => ()`, src/main.rs:111-116). A non-zero
  exit is neither logged nor reported; only an error from `wait` itself is logged.
- `do_sync` itself would start rsync on an empty queue. rsync is never started with an
  empty queue only because `main` tests `is_empty()` first (src/main.rs:225), so `Step`
  is where that is proved.
- The registry lookup `unwrap` is reached only by events that pass the ignore test and
  take the directory-create or file-finished branch. Only those events need a registered
  descriptor.

## Model

| member | source | states |
|---|---|---|
| `Events.Classify` | src/main.rs:189-216 | The ignore test on the bare name wins over every flag. A directory event gives a new directory iff it is a create, so a moved-in directory gives nothing. A non-directory event gives a transfer iff it is close-write or moved-to. The two outcomes exclude each other. Any outcome is the registered directory of `wd` with the name pushed as one component, and that component reads back as the name. |
| `Events.ClassifyBatch` | src/main.rs:180-216 | Over one batch, with the registry only read: the queue is its old contents followed by `Transfers` of the batch, and `subdirs` is `NewDirs` of the batch. Requires that every event that reaches the `unwrap` lookup has a registered descriptor. |
| `Events.TransfersAreQualifyingPaths` | src/main.rs:204-215 | The batch appends exactly one path per qualifying file event (not ignored, not a directory, close-write or moved-to), in event order and without deduplication. Entry `k` is the path of the `k`-th qualifying event. |
| `Events.TransfersAppend` | src/main.rs:180-216 | Splitting one batch in two, under the same registry, the whole appends what each part appends, in order. |
| `Events.OutputsExclusive` | src/main.rs:195-215 | Event `i` adds its path to `subdirs` iff it is a non-ignored directory creation, adds its path to the transfer queue iff it is a non-ignored finished file, and never adds to both. |
| `Events.OutputsCount` | src/main.rs:195-215 | Together `subdirs` and the transfers of a batch are no longer than the batch. |
| `Events.IgnoredBatch` | src/main.rs:190-194 | A batch whose names all match the ignore patterns adds nothing to either output, and needs no registered descriptor. |
| `Events.OutputsBelowRegistered` | src/main.rs:199-201 | Every new directory and every queued path is one component below a directory the registry holds. |
| `Events.Qualifying` | src/main.rs:205 | The filter of qualifying file events keeps only members of the batch that qualify. |
| `Registry.RegisterSubdirs` | src/main.rs:219-224 | Pops every discovered directory and watches it. It succeeds iff every one still exists, and the registry is then `RegisterAll` of them. Otherwise `add_watch(..).unwrap()` panics. |
| `Registry.RegisterAllGrows` | src/main.rs:219-224 | Registration never removes or changes an entry. Every discovered directory becomes registered under its own descriptor, every entry is old or newly discovered, and the registry stays consistent. |
| `Registry.ListSubdirs` | src/main.rs:168-173 | The directories collected from one listing are exactly the directory entries, joined to the listed directory, in listing order. |
| `Registry.DirChildrenMembers` | src/main.rs:168-173 | A path is collected from a listing iff it is the listed directory joined with the name of an entry that is a directory. |
| `Registry.ChildrenReachable` | src/main.rs:170-171 | What a reachable directory's listing yields is reachable and one level deeper. |
| `Registry.ChildOfParent` | src/main.rs:168-173 | Every reachable directory other than the root is collected from its parent's listing. |
| `Registry.InsertExtends` | src/main.rs:174-175 | Watching one directory keeps every existing entry and registers that directory. |
| `Registry.WalkLevel` | src/main.rs:165-176 | One round of the walk registers every directory of the current level and keeps every old entry. The next level holds every sub-directory of the current level, one level deeper and reachable. |
| `Registry.DirsFromShrinks` | src/main.rs:164 | The walk terminates: each round strictly shrinks the set of listed directories it may still visit. |
| `Registry.NextLevelComplete` | src/main.rs:164-177 | After a round, the next level holds every reachable directory one level deeper than the current one. |
| `Registry.WalkExhausted` | src/main.rs:164 | Once a level comes up empty, no reachable directory is that deep or deeper, so the walk has visited everything. |
| `Registry.Bootstrap` | src/main.rs:156-177 | On a finite well-formed tree, the walk from `.` terminates. The registry then holds exactly the directories reachable from the root, each under its own descriptor. The root, watched twice, has one entry. |
| `Paths.ReachableListed` | src/main.rs:168 | Every directory the walk reaches is a listed directory, so `read_dir(..).unwrap()` does not panic on the snapshot. |
| `Paths.ReachablePrefix` | src/main.rs:162-177 | Every prefix of a reachable directory is reachable. With it, an empty level ends the walk (`WalkExhausted`). |
| `Paths.NameRoundTrip` | src/main.rs:201 | A `String` name pushed onto a path reads back as the same text. |
| `Paths.ComponentText` | src/main.rs:76 | `to_str` of one component succeeds iff every unit is a decoded character, and gives those characters. |
| `Paths.Render` | src/main.rs:76 | `to_str` of a whole path succeeds iff every component is valid UTF-8. |
| `Paths.RenderInjective` | src/main.rs:76 | Two paths without `/` in their names that give the same text are the same path. |
| `Paths.RenderAvoids` | src/main.rs:76 | A rendered path holds no character absent from its names other than `.` and `/`. |
| `Sync.TextPaths` | src/main.rs:75-80 | Non-UTF-8 entries are dropped, so the list has at most as many entries as the queue. |
| `Sync.TextPathsAreRendered` | src/main.rs:75-80 | Every entry of the file list is the UTF-8 text of some queue entry. |
| `Sync.TextPathsAppend` | src/main.rs:75-80 | The filter of a queue split in two is the filter of each half, in order, so the UTF-8 entries are kept in queue order whatever else the queue holds. |
| `Sync.TextPathsOne` | src/main.rs:75-80 | A single entry is kept, as its text, exactly when it converts to UTF-8. |
| `Sync.TextPathsKeepAll` | src/main.rs:75-80 | When every queue entry is UTF-8, nothing is dropped, and entry `k` of the list is queue entry `k`. |
| `Sync.FileList` | src/main.rs:75-81 | The file list is empty exactly when no queue entry converts to UTF-8. |
| `Sync.FileListLines` | src/main.rs:75-81 | When no name contains a newline, splitting the file list at newlines gives back the UTF-8 queue entries in queue order. The list has one newline fewer than it has entries, and it does not end with a newline. |
| `Sync.RsyncArgs` | src/main.rs:84-92 | The arguments start with `-a --relative --files-from=-` and end with `.` and the destination. Each argument in between is a non-empty word without whitespace, and together they hold every non-blank character of `--rsync-params`, in order. |
| `Sync.RsyncArgsParams` | src/main.rs:84-92 | Words written into `--rsync-params` separated by blanks reach rsync as exactly those separate arguments, in order. |
| `Sync.DoSync` | src/main.rs:73-124 | The started processes are those of `Dispatched` over all destinations, each given the same file list. On `Ok` the queue is empty, however many spawns failed or lacked a stdin. On `Err` (a failed write) the queue is unchanged. |
| `Sync.CompletedIffNoWriteFailure` | src/main.rs:95-110 | `do_sync` returns `Ok` iff no write to an rsync stdin failed. A failed spawn or a missing stdin never makes it fail. |
| `Sync.CompletedCallsEveryStarted` | src/main.rs:95-110 | On `Ok`, every destination whose rsync started has its call, with that destination's argument vector, and every call belongs to such a destination. A failed destination does not stop the others. |
| `Sync.CompletedCallsInOrder` | src/main.rs:83-120 | On `Ok`, the calls are exactly one per destination whose rsync started, in the configured order of the destinations. None is merged, repeated or reordered. |
| `Sync.SyncAbortStays` | src/main.rs:104 | After a failed write, no later destination is attempted. |
| `Sync.CallsCarryFileList` | src/main.rs:88-104 | Every call runs the configured rsync binary. Every process given input was given the one file list built before the loop. |
| `Text.SplitWhitespace` | src/main.rs:84-86 | `split_whitespace` yields only non-empty, whitespace-free tokens. |
| `Text.SplitWhitespaceOfJoin` | src/main.rs:84-86 | Splitting whitespace-free words joined by spaces gives the words back. |
| `Text.SplitWhitespaceAt` | src/main.rs:84-86 | Every whitespace character separates tokens: the split of `a`, one whitespace character and `b` is the split of `a` followed by the split of `b`. |
| `Text.SplitWhitespaceOfToken` | src/main.rs:84-86 | A non-empty string without whitespace is a single token. |
| `Text.SplitWhitespaceKeepsText` | src/main.rs:84-86 | The tokens, concatenated, are exactly the non-whitespace characters of the input, in order. |
| `Text.Join` | src/main.rs:81 | `join` of no parts is empty. A join of `n` parts is as long as the parts together plus `n - 1` separators, and begins with the first part. |
| `Text.SplitOnJoin` | src/main.rs:81 | Splitting a join at its separator gives the parts back, when no part holds the separator. |
| `Text.CountInJoin` | src/main.rs:81 | A join of `n` separator-free parts holds exactly `n - 1` separators. |
| `Text.JoinEndsWithLast` | src/main.rs:81 | A join ends with its last part, with no trailing separator. |
| `WatchLoop.Step` | src/main.rs:182-231 | One iteration panics iff a discovered directory is gone or an rsync write fails. It sleeps iff the queue after classification is empty, and then starts no rsync. Otherwise it synchronizes. Either way the new registry is `RegisterAll` of the discovered directories and the new queue is empty. |
| `WatchLoop.StepKeepsRegistry` | src/main.rs:219-224 | An iteration never removes or changes a registry entry, registers every directory the batch discovered, and keeps the registry consistent. |
| `WatchLoop.NewDirectoryThenFile` | src/main.rs:195-224 | A directory `photos` created in the root is watched after the batch, and a file `a.jpg` then finished in it is queued as `./photos/a.jpg`. |
| `WatchLoop.IgnoredFileNotQueued` | src/main.rs:190-194 | A finished file whose name matches an ignore pattern leaves the queue as it was. |

## Left out

- inotify initialisation, `wait_for_events` and the `add_watch` system call are foreign calls. Events are an input sequence. The descriptor is the function `wdOf`, and `add_watch` fails iff the directory is missing from the current `Tree`.
- Descriptor reuse after a watch is removed, renames, and two paths naming one inode are not modelled, because `wdOf` is a fixed injective function of the path.
- `fs::read_dir`, `fs::metadata` and `env::set_current_dir` are filesystem I/O, replaced by the `Tree` snapshot. The walk sees a tree that does not change while it runs, so races between listing and watching are not modelled.
- `fs::metadata(..).unwrap()` on a broken symbolic link panics (src/main.rs:170). That is not modelled: the `Tree` lists only entries whose kind is known.
- A cycle of symbolic links makes the start-up walk follow it, adding one link to the path each level (and a branching cycle multiplies the paths). Once the operating system's limit on links per lookup is reached, `read_dir(..).unwrap()` or `fs::metadata(..).unwrap()` panics (src/main.rs:168, 170). `Bootstrap` requires a finite tree and leaves this case out.
- Failures of a directory that exists are not modelled. `read_dir(..).unwrap()` panics on a directory that cannot be read (src/main.rs:168). `add_watch(..).unwrap()` panics when the kernel refuses a watch on an existing directory, for lack of permission or once the watch limit is reached (src/main.rs:157, 174, 222). `WellFormed` makes every listed directory readable, and `add_watch` fails only for a missing directory.
- Paths.Unit: a `RawByte` stands for a byte that is not valid UTF-8, but the type does not restrict its value. A component holding `RawByte(0x41)` is treated as non-UTF-8, although the real `to_str` would accept that byte.
- `read_ignore_regex` (src/main.rs:126-135) reads a file and compiles regular expressions, which is library and file I/O. The matcher is an opaque predicate, and its panics on a missing file or a bad pattern are not modelled.
- Spawning rsync, the bytes of `write_all`, and `process.wait()` are subprocess I/O. The model keeps the program, the arguments, the file list each process is given, and the control flow. An error from `wait` only logs, so it is not modelled.
- The `to_str().unwrap()` calls inside logging statements (src/main.rs:212, 221) panic on a non-UTF-8 path when info logging is on. Logging is not modelled, so the model behaves as with logging off.
- `time::now` durations, `sleep` and its interval, logging and Docopt parsing carry no stateable logic. A sleeping step is the outcome `Slept`.
- The endless `loop` is modelled as one iteration, `Step`.
- `PathBuf::push` of a name holding `/` or starting at the root is not modelled. inotify names are bare.
- Sync.FileListLines: requires that no name contains a newline. A name holding a newline becomes two lines of rsync's file list.
