# FileUtils in Dafny

A verified functional model of `reactor.file.FileUtils` from reactor-extra. The class
holds three pieces of logic:

- `lines(path, charset)`: a demand-driven line reader. A `BufferedReader` is opened when
  `lines` is called. The sink's request callback reads at most `n` lines per request.
  A `null` from `readLine` closes the reader and completes the sink. Cancel and dispose
  close the reader.
- `walk(path)` with its helper `fileFlux`: a depth-first, pre-order expansion of a file
  tree. An entry whose `File.listFiles()` is `null` is a leaf. That covers a regular file,
  a missing path and an unreadable directory alike.
- `deleteDirectory(path, keepRoot)`: the walk, sorted in reverse path order, without the
  root when `keepRoot` holds, each path mapped to the boolean `File.delete` returns.

Modules, one per concern:

| file | module | what it holds |
|---|---|---|
| `wrappers.dfy` | `Wrappers` | `Option` for Java's `null`, `Result` for an exception thrown at call time |
| `path_order.dfy` | `PathOrder` | paths as strings, the lexicographic order `Path.compareTo` uses on Unix, a descending insertion sort |
| `line_reader.dfy` | `LineReader` | the reader state `{pos, closed, completed}`, the request, cancel and dispose events, whole sessions |
| `file_tree.dfy` | `FileTree` | the entry tree, `fileFlux`, the recursive walk and the work-stack form of `expandDeep` |
| `deletion.dfy` | `Deletion` | the sort / filter / map pipeline and its ordering guarantees |
| `samples.dfy` | `Samples` | the tree `a/`, `a/b/`, `a/x.txt`, `a/b/y.txt` walked and deleted |

External effects are parameters:

- The open reader is a `Source`: the lines `readLine` returns, then how the next read ends.
  It ends either with `null` or with an IOException. A read failure part-way through a file
  looks the same to the reader as a source whose lines stop there and end in the failure.
- Opening is an `Option<Source>`: `None` when `Files.newBufferedReader` throws.
- `File.listFiles()` is stored in each tree entry as its `Listing`: `Unlisted` for `null`,
  otherwise `Listed(entries)` in listing order.
- `File.delete` is a function `Path -> bool`.

Three behaviours of the code that the model states explicitly:

- A read failure propagates the IOException out of the request callback without closing
  the reader. The reader stays open on that path (`ReadErrorLeavesReaderOpen`). Every other
  way a session ends closes it.
- The reader can be closed twice, for example by end of input and then by disposal. The code
  relies on `BufferedReader.close` being harmless the second time, so closing is idempotent
  (`CloseIdempotent`).
- `deleteDirectory` emits one boolean per attempted path. The `i`-th boolean belongs to the
  `i`-th path of `DeletionOrder`.

## Model

| member | source | states |
|---|---|---|
| `LineReader.Lines` | reactor-extra/src/main/java/reactor/file/FileUtils.java:48-50 | an open failure is reported when `lines` is called, before any reader state exists; otherwise the reader starts open, not completed, at the first line with every line still to come |
| `LineReader.ReadLine` | reactor-extra/src/main/java/reactor/file/FileUtils.java:76-82 | `readLine` on an open reader returns the next unread line while one remains; once none remains it returns `null` when the source ends normally and fails with an IOException when it ends in a read error |
| `LineReader.Pull` | reactor-extra/src/main/java/reactor/file/FileUtils.java:52-63 | the request callback's read loop (emit a line, or close and complete on `null` and break, or stop on a read error) equals the closed form `Respond`: the next min(n, remaining) lines, ending decided only if the demand outlasts the lines |
| `LineReader.OnRequestLoop` | reactor-extra/src/main/java/reactor/file/FileUtils.java:53-62 | the counted `for` loop with `break`, written imperatively, computes the same closed form, so the loop and the recursive `Pull` agree on every input |
| `LineReader.RequestContract` | reactor-extra/src/main/java/reactor/file/FileUtils.java:53-61 | one request emits at most `n` lines, exactly the next min(n, remaining) in source order; it completes and closes iff n exceeds the remaining lines and the source ends in `null`; it errors iff n exceeds them and the source ends in an IOException |
| `LineReader.OnRequest` | reactor-extra/src/main/java/reactor/file/FileUtils.java:52-63 | the request callback as delivered: a request to an open reader runs the read loop `Pull`; a request to a closed reader emits nothing and changes nothing; either way the reader state stays valid and on the same source |
| `LineReader.Close` | reactor-extra/src/main/java/reactor/file/FileUtils.java:64-65 | cancel and dispose close the reader, emit nothing and leave the position and completion unchanged |
| `LineReader.CloseIdempotent` | reactor-extra/src/main/java/reactor/file/FileUtils.java:84-90 | closing an already closed reader changes nothing more |
| `LineReader.EmittedIsSourceSlice` | reactor-extra/src/main/java/reactor/file/FileUtils.java:52-65 | over any sequence of request, cancel and dispose events, the lines received are exactly the source's lines between the starting and final positions, in order, with no gap and no repeat |
| `LineReader.DemandIsCumulative` | reactor-extra/src/main/java/reactor/file/FileUtils.java:52-62 | requests n1, n2, ... together emit exactly the first min(n1 + n2 + ..., remaining) unread lines, however the demand is split |
| `LineReader.ExactDemandLeavesOpen` | reactor-extra/src/main/java/reactor/file/FileUtils.java:53-58 | requesting exactly the remaining count emits every line but neither completes nor closes; the next request of one or more reads the `null`, emits nothing, completes and closes |
| `LineReader.NonErrorTerminationCloses` | reactor-extra/src/main/java/reactor/file/FileUtils.java:55-65 | end of input inside a request, cancellation and disposal each leave the reader closed |
| `LineReader.ReadErrorLeavesReaderOpen` | reactor-extra/src/main/java/reactor/file/FileUtils.java:76-82 | a request that runs into a read error leaves the reader open and the sink not completed, positioned after the last good line |
| `LineReader.ClosedIgnoresRequests` | reactor-extra/src/main/java/reactor/file/FileUtils.java:52-65 | once the reader is closed, whatever events follow emit nothing, the reader stays closed and completion is unchanged, so completion is absorbing |
| `FileTree.Children` | reactor-extra/src/main/java/reactor/file/FileUtils.java:113-117 | `fileFlux`: an entry whose `listFiles()` is `null` has no children; otherwise its children are the listed entries, in listing order |
| `FileTree.Walk` | reactor-extra/src/main/java/reactor/file/FileUtils.java:100-117 | the walk starts with the root and has one path per entry of the tree; an entry whose listing is `null` or empty contributes only its own path |
| `FileTree.SubtreeWalkIsBlock` | reactor-extra/src/main/java/reactor/file/FileUtils.java:100-110 | pre-order and depth-first: the walk of any entry below the root is one contiguous block of the root's walk, after the root, so an entry precedes all its descendants and a subtree is finished before its next sibling starts |
| `FileTree.ExpandDeep` | reactor-extra/src/main/java/reactor/file/FileUtils.java:106-110 | the explicit work-stack expansion emits exactly the recursive walk and lists each entry exactly once |
| `PathOrder.ProperPrefixIsBelow` | reactor-extra/src/main/java/reactor/file/FileUtils.java:94 | a proper prefix sorts strictly before the path it prefixes, so an ancestor's path is smaller than a descendant's |
| `PathOrder.SortDescending` | reactor-extra/src/main/java/reactor/file/FileUtils.java:94 | the reverse-order sort returns a permutation of its input, in descending order |
| `PathOrder.DescendingUnique` | reactor-extra/src/main/java/reactor/file/FileUtils.java:94 | two descending sequences with the same elements are equal, so any correct reverse-order sort yields the same sequence as this one |
| `PathOrder.ExtensionsComeFirst` | reactor-extra/src/main/java/reactor/file/FileUtils.java:94 | in a descending sequence no path is followed by a longer path it is a prefix of |
| `Deletion.DropRoot` | reactor-extra/src/main/java/reactor/file/FileUtils.java:95 | the filter removes every occurrence of the root path when `keepRoot` holds, so the root is absent from the result, and returns its input unchanged otherwise; the length drops by the root's multiplicity |
| `Deletion.DropRootAppend` | reactor-extra/src/main/java/reactor/file/FileUtils.java:95 | the filter keeps order: filtering a concatenation filters each part in place |
| `Deletion.DropRootSingle` | reactor-extra/src/main/java/reactor/file/FileUtils.java:95 | a single path is dropped exactly when it equals the root and `keepRoot` holds; with `DropRootAppend` this fixes the filtered sequence element by element |
| `Deletion.DropRootKeepsDescending` | reactor-extra/src/main/java/reactor/file/FileUtils.java:94-95 | filtering a descending sequence leaves it descending |
| `Deletion.DeletionOrder` | reactor-extra/src/main/java/reactor/file/FileUtils.java:93-95 | the attempted paths are the walked paths, without the root when it is kept, in descending order |
| `Deletion.MapDelete` | reactor-extra/src/main/java/reactor/file/FileUtils.java:96-97 | the mapping step gives one boolean per path, the `i`-th being the delete oracle's answer for the `i`-th path |
| `Deletion.DeleteDirectory` | reactor-extra/src/main/java/reactor/file/FileUtils.java:92-98 | one boolean per attempted path, in attempt order, each the delete oracle's answer for that path; a failed delete is a `false`, never an error |
| `Deletion.OneResultPerPath` | reactor-extra/src/main/java/reactor/file/FileUtils.java:92-97 | in a well-formed tree the number of results is the number of entries, less one exactly when `keepRoot` holds, and the root is attempted exactly when it is not kept |
| `Deletion.DescendantsBeforeAncestors` | reactor-extra/src/main/java/reactor/file/FileUtils.java:93-97 | for any tree, a path is attempted before every path that is a proper prefix of it |
| `Deletion.ChildrenDeletedFirst` | reactor-extra/src/main/java/reactor/file/FileUtils.java:92-97 | in a well-formed tree every entry below a directory is attempted, and attempted before the directory itself |
| `Deletion.EveryEntryAttempted` | reactor-extra/src/main/java/reactor/file/FileUtils.java:93-97 | every entry of the tree is attempted unless it is the kept root |
| `Deletion.RootAttemptedLast` | reactor-extra/src/main/java/reactor/file/FileUtils.java:94-95 | in a well-formed tree, when the root is not kept it is the last path attempted |
| `Deletion.AncestorPathIsPrefix` | reactor-extra/src/main/java/reactor/file/FileUtils.java:113-117 | in a tree whose children's paths extend their parent's, an entry's path is a proper prefix of every entry's path below it |
| `Deletion.WalkExtendsRoot` | reactor-extra/src/main/java/reactor/file/FileUtils.java:106-110 | in a well-formed tree every walked path after the first extends the root's path |
| `Deletion.LeafDeletion` | reactor-extra/src/main/java/reactor/file/FileUtils.java:92-97 | a path with nothing beneath it gives no attempt when the root is kept and a single attempt, on that path, otherwise |
| `Samples.SampleWalk` | reactor-extra/src/main/java/reactor/file/FileUtils.java:106-110 | walking `a` visits `a`, `a/b`, `a/b/y.txt`, `a/x.txt` |
| `Samples.SampleDeletionOrder` | reactor-extra/src/main/java/reactor/file/FileUtils.java:92-97 | deleting `a` attempts `a/x.txt`, `a/b/y.txt`, `a/b`, then `a` |
| `Samples.SampleKeepRootOrder` | reactor-extra/src/main/java/reactor/file/FileUtils.java:92-97 | with the root kept, deleting `a` attempts `a/x.txt`, `a/b/y.txt`, `a/b` and never `a` |

## Left out

- File I/O (opening, `readLine`, `close`, `listFiles`, `delete`) is replaced by the oracles described above. The charset only matters to decoding, so it is not modelled, and `lines(path)` with the default charset is the same model.
- An IOException from `close` is not modelled. Whether `BufferedReader` counts itself closed after a failed close is library behaviour outside this class.
- Reactor's `Flux.create`, `FluxSink` and `expandDeep` internals, scheduling and threading are not modelled. Only the request, cancel and dispose callbacks are.
- `LineReader.OnRequest` treats a request reaching a closed reader as not delivered. Reactor stops calling the request callback once the sink is cancelled, and a consumer must not request after completion. If such a call did arrive, the real `readLine` would throw "Stream closed".
- The loop counter is an `int` compared with a `long` demand. The model uses unbounded integers, and an unbounded demand is just a large `n`.
- Paths are compared as character strings in plain lexicographic order, as `Path.compareTo` does on Unix. Platform-specific comparisons, such as case-insensitive ordering on Windows, are not modelled.
- `Paths.get` normalisation of the walked path is not modelled. An entry's path is the one its listing produced.
- Symbolic-link cycles are not modelled: the tree is a finite datatype, so it is always acyclic.
- The delete oracle depends only on the path. In reality, deleting a directory succeeds only once it is empty. `ChildrenDeletedFirst` is what makes that work, but the model does not track the file system changing.
