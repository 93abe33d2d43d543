# clang_complete header-directory finder, modelled in Dafny

`clang_complete` finds the `-I` flags a C/C++ source tree needs. It does this in four steps:

1. It scans a set of header roots into an inverted index. Every kept header file is registered under its root's sentinel node by base name. Every kept entry below a scanned root links to the node of the directory that holds it. The top entry of a scan links to nothing: `Scan` drops the node `buildtree` returns for it (main.go:118).
2. It collects the source files of the tree.
3. It runs the compiler in dependency mode (`gcc -M -MG`) on each source file, with the `-I` flags learned so far. Every relative header the compiler names is searched in the index. Every directory that holds the header is learned. A file with a header that was found is searched again in a later round.
4. At the end it prints the learned directories, sorted, as `-I` flags.

This project models the code that does this, in `main.go`. The parts and the Dafny modules that model them:

- **The file-system tree.** `FileSystem` models the tree as a value. It also models `collect`, the walk that gathers the source files.
- **The header index.** `node`, `newNode`, `AddChild`, `Path`, `tree.Scan`, `buildtree` and `tree.Search` are modelled in these modules:
  - `HeaderIndex` holds the index and its operations.
  - `HeaderIndexBuild` and `HeaderIndexLinks` hold the facts about one scan.
  - `HeaderIndexForest` holds the facts about scanning all the roots.
  - `HeaderIndexFollow` holds the facts about a search.
  - `HeaderIndexTheorems` holds the end-to-end theorems.
  - `HeaderIndexExamples` holds concrete trees.
- **The compiler-output parsers.** `Toolchain` and `ToolchainFacts` model the parsing half of `listheaders`, the parsing half of `systemheaders`, and `isLocationKnownHeader`.
- **The accumulator.** `Printer` models `printer` with `Printdirs`, `Includes` and `Flush`.
- **The driver.** `Driver` models `searchFile` and one round of `main`'s breadth-first loop.
- **Helpers.** `Text` models `filepath.Ext`, `strings.TrimSpace` and one-character `Split`. `Seqs` holds helpers on sequences.

How the model represents the Go program:

- **Paths** are sequences of path elements.
- **Nodes** live in a map from ids to values. They are not heap objects.
- **Go map iteration.** Iterating over `t.roots` or `p.m` in Go map order becomes an explicit enumeration parameter. Lemmas show the result does not depend on it beyond reordering. The driver passes one enumeration of the roots to every search of a round, whereas Go draws a fresh order at each `range`. Since any order gives the same directories, each the same number of times, only the order of the reported list differs.
- **The compiler** is a function parameter.

The main theorem, `HeaderIndexTheorems.ResolveExact`, assumes the roots are scanned under distinct paths. Under that assumption, a search of the built index reports directory P for header h exactly when P + h is the path of a header file that one of the scans kept.

## Model

| member | source | states |
|---|---|---|
| HeaderIndex.NewNode | main.go:81-86 | The new node has the given name and parent path and no links. It takes the counter's id, and the counter moves past it. The key set grows by that id alone, and every other node is unchanged. On an index whose ids are all below the counter, the id is one no node had, and the index keeps that property. |
| HeaderIndex.AddChild | main.go:89-95 | The child is appended to the list under the child's own name. The key is created when it is missing. Every other key of that node, and every other node, is unchanged. |
| HeaderIndex.BuildEntry | main.go:161-214 | A successful scan of an entry returns a node that carries the entry's base name and the path of the directory holding it. The scan keeps every existing node and draws only fresh ids. |
| HeaderIndexBuild.BuildEntryOutcome | main.go:161-214 | A scan returns `errSkip` exactly for the entries it skips: hidden names, entries that are neither files nor directories, files without an accepted extension, and empty directories. It fails with a stat error exactly when the tree holds an unreadable entry outside hidden directories. |
| HeaderIndexBuild.BuildEntriesOutcome | main.go:202-212 | The loop over a directory listing fails only with a stat error. It fails exactly when some entry of the listing holds an unreadable entry. Skipped entries do not stop it. |
| HeaderIndexBuild.BuildEntryGrows | main.go:161-214 | A scan only adds nodes with fresh ids and adds links. Apart from the sentinel root it changes no node that was there before. It keeps every link pointing at a node. |
| HeaderIndexBuild.BuildEntryRootKeys | main.go:179-188 | After a scan, the names registered under the sentinel root are the earlier ones plus exactly the base names of the header files the scan keeps. |
| HeaderIndexLinks.BuildEntrySound | main.go:161-214 | Every link a scan creates fits the scanned tree. A root link points at a kept file. Any other link points from an entry to the node of its containing directory. |
| HeaderIndexLinks.BuildEntryComplete | main.go:179-212 | Every kept header file is reached by walking its path from the sentinel root, for every split of that path. |
| HeaderIndexLinks.FollowSound | main.go:137-151 | A walk from the sentinel roots of a sound scan only meets nodes whose directory, extended by the walked suffix, is a file the scan kept. |
| HeaderIndex.Scan | main.go:112-124 | A successful scan registers its new sentinel root under the scanned path and replaces any root registered there before. Other roots are left as they were. A failure is a stat error, never `errSkip`. |
| HeaderIndexForest.ScanOutcome | main.go:117-123 | `Scan` fails exactly when the scanned tree holds an unreadable entry outside hidden directories. |
| HeaderIndexForest.ScanRootKeys | main.go:117-122 | The new sentinel root holds exactly the base names of the files the scan keeps. |
| HeaderIndexForest.ScanGrows | main.go:112-124 | A scan leaves every existing node as it was and adds nodes only under new ids. It keeps the forest searchable. |
| HeaderIndexForest.ScanSound | main.go:112-124 | The links of a scan's nodes are backed by the files the scan keeps. |
| HeaderIndexForest.ScanComplete | main.go:112-124 | Every file a scan keeps is reached from the new sentinel root, under every split of its path. |
| HeaderIndexForest.ScanAllOutcome | main.go:465-472 | Scanning the roots one after the other fails exactly when some root holds an entry the scan cannot stat. |
| HeaderIndexForest.ScanAllRoots | main.go:465-472 | After all the scans, the registered root paths are the old ones plus the scanned ones. A root that no scan touches keeps its sentinel. |
| HeaderIndexForest.ScanAllGrows | main.go:465-472 | Scanning all the roots keeps the existing nodes and keeps the forest searchable. |
| HeaderIndexForest.ScanAllSound | main.go:465-472 | Every registered root stays sound for the scan that registered it, however many roots are scanned after it. |
| HeaderIndexForest.ScanAllComplete | main.go:465-472 | A file that scan j keeps is reached from the finished forest, unless a later scan registered a root under the same path. |
| HeaderIndexTheorems.BuildIndexShape | main.go:465-472 | Building the index fails exactly when some root holds an unreadable entry. Otherwise the forest is searchable, has a sentinel root for exactly the scanned paths, and has no link under the empty name. |
| HeaderIndexTheorems.ResolveSound | main.go:126-159 | Every directory a search reports, extended by the header's path elements, is a header file one of the scans kept. |
| HeaderIndexTheorems.ResolveComplete | main.go:126-159 | Every kept header file is reported, under every split of its path into a directory below its scan's root and the header, unless a later scan replaced that root. |
| HeaderIndexTheorems.ResolveExact | main.go:126-159 | With distinct root paths, a search reports P for h exactly when P + h is a kept header file. |
| HeaderIndex.ScanAll | main.go:465-472 | The loop in `main` that scans each header root. A failure is always a stat error: skipped roots never end the loop. On success the forest keeps its id invariant, and every root path registered before is still registered. ScanAllOutcome, ScanAllRoots and ScanAllComplete state the rest. |
| HeaderIndex.Resolve | main.go:126-159 | The reference definition of `tree.Search`: start from the sentinel roots, step through the path elements from the last one, and report the directory of each final candidate. The definition has no contract of its own. HeaderIndexTheorems.ResolveExact states what it reports: P for h exactly when P + h is a kept header file. |
| HeaderIndex.Narrow | main.go:137-151 | One pass of the outer loop of `tree.Search` extends the walk by one path element, taken from the end. Every candidate stays a node of the index. |
| HeaderIndex.StartList | main.go:132-135 | The loop over the roots gathers the sentinel root of every registered path, in the enumeration order, and only nodes of the index. |
| HeaderIndex.StepList | main.go:139-146 | The inner loop gathers, in order, every node the candidates link to under the element. Candidates without that key contribute nothing. |
| HeaderIndex.DirList | main.go:153-157 | The final loop reports the directory holding each candidate, one per candidate. |
| HeaderIndex.Search | main.go:126-159 | The loop-by-loop search, with its early `errNotFound` return, computes the same result as the reference definition of a search. |
| HeaderIndexFollow.StepMember | main.go:139-146 | A node is a candidate after a step exactly when some earlier candidate links to it under that element. |
| HeaderIndexFollow.DirsMember | main.go:153-157 | A directory is reported exactly when some final candidate sits in it. |
| HeaderIndexFollow.FollowPermutation | main.go:132-151 | Reordering the start nodes only reorders the candidates of every step. |
| HeaderIndexFollow.ResolveOrderIndependent | main.go:132-135 | Two iteration orders of the roots map either both fail, or report the same directories, each the same number of times. |
| HeaderIndexFollow.ResolveFailsOnEmptyStep | main.go:137-151 | A search fails exactly when some step, walking from the last element, leaves no candidate. |
| HeaderIndexFollow.ResolveLeadingSlash | main.go:127-130 | "/h" and "h" resolve alike. A header that starts with two slashes names an empty element and is never found. |
| HeaderIndexFollow.ResolveCount | main.go:147-158 | A successful search on a searchable forest reports one directory per final candidate, so at least one. |
| HeaderIndexExamples.NestedHeaderFound | main.go:126-214 | In a root holding `sub/name`, a hidden file, a file with an extension that is not accepted, and an entry that is neither a file nor a directory, a search for "sub/name" reports exactly the root's own directory. |
| HeaderIndexExamples.NestedHeaderSlash | main.go:127-129 | In that tree "/sub/name" is searched as "sub/name". |
| HeaderIndexExamples.MissingHeaderNotFound | main.go:137-149 | A header whose path elements never name the tree's header file is `errNotFound`. |
| HeaderIndexExamples.HiddenNotFound | main.go:164-166 | A hidden file is never found, even under a header naming it. |
| HeaderIndexExamples.ForeignNotFound | main.go:173-177 | An entry that is neither a regular file nor a directory, such as a symbolic link, is not indexed. It sits at the root under the header file's base name, yet a search for that name reports only `root/sub`, where the regular file is. The root itself is not reported. |
| HeaderIndexExamples.WrongExtensionNotFound | main.go:180-184 | A regular file whose extension is not accepted is not indexed. A search for its name is `errNotFound`. |
| HeaderIndexExamples.SameNameUnderTwoRoots | main.go:126-159 | A base name present under two distinct roots is found under both roots and nowhere else. |
| Text.Ext | main.go:181-182 | `filepath.Ext` returns a suffix of the path, at most as long. Text.ExtIsFinalSuffix characterises it exactly. |
| Text.ExtIsFinalSuffix | main.go:181-182 | The extension is "" exactly when the final path element has no '.'. Otherwise it is the suffix starting at that element's last '.'. |
| Text.TrimSpace | main.go:302 | The result is the factor of the line left after dropping its leading and trailing white space. It neither starts nor ends with white space. |
| Text.TrimSpaceIdempotent | main.go:302 | Trimming twice is trimming once. |
| Text.Split | main.go:241 | There is at least one piece. The pieces contain no separator, and joined back with it they give the input. |
| Text.SplitJoin | main.go:130 | Splitting undoes joining separator-free pieces. |
| Toolchain.IsLocationKnownHeader | main.go:216-218 | A header is already located exactly when it is an absolute path, one starting with '/'. |
| Toolchain.ParseDeps | main.go:235-256 | Listing fails exactly on empty output. Every header reported is non-empty and space-free, has an accepted extension, and is not absolute. |
| Toolchain.RemoveContinuations | main.go:240 | Dropping backslash-newline pairs never lengthens the output. Toolchain.ParseDepsContinuation states that a line break only disappears when a backslash comes before it. |
| Toolchain.ParseDepsContinuation | main.go:239-241 | A continuation line break in the output changes nothing, unless it follows a backslash. |
| Toolchain.ParseDepsRender | main.go:239-256 | Parsing a printed make rule gives back its dependencies, in order, less the ones `listheaders` skips. |
| Toolchain.SystemDirs | main.go:298-316 | Every directory kept is trimmed and is neither marker line. |
| Toolchain.SearchDirs | main.go:298-316 | The scanning loop, with its `started` flag and `break`, keeps the same lines as the reference definition of the system directories. |
| ToolchainFacts.SystemDirsRender | main.go:298-316 | On output shaped like `gcc -v`'s (preamble, start marker, one directory per line, end marker, anything), the directories come back trimmed and in order. |
| ToolchainFacts.SystemDirsNoStart | main.go:298-316 | Output in which no trimmed line starts with the start marker lists no system directory. |
| FileSystem.Collect | main.go:261-285 | Every path the walk emits lies below the walked entry, and so does the path of the entry a failure reports. FileSystem.CollectExact states which paths are emitted. |
| FileSystem.CollectAll | main.go:266-283 | The same for a directory listing: everything emitted, and any failing path, lies below the directory. FileSystem.CollectAllExact states which paths are emitted. |
| FileSystem.CollectedDir | main.go:266-283 | A collectable path of a visible directory is the directory itself, when its name has an accepted extension, or lies below one of its entries. |
| FileSystem.CollectExact | main.go:261-285 | The walk fails exactly when it meets an unreadable entry outside hidden directories. Otherwise it emits exactly the paths of entries of the tree that have no hidden element and whose last element has an accepted extension, directories included. |
| FileSystem.CollectAllExact | main.go:266-283 | The walk over a listing fails exactly when one of its entries does. Otherwise it emits exactly the union of what its entries emit. |
| Printer.NewPrinter | main.go:336-341 | A new printer knows no directory and has no system directories. |
| Printer.AddSys | main.go:343-345 | Only the system directories are replaced. The learned ones are untouched. |
| Printer.Printdirs | main.go:347-359 | The known set grows by exactly the given directories. The old list stays as its prefix. The system directories are unchanged. The invariant "list = known set, without duplicates" is kept. |
| Printer.PrintdirsKnown | main.go:352-358 | Directories that are all known already change nothing. |
| Printer.PrintdirsIdempotent | main.go:347-359 | A repeated call changes nothing. |
| Printer.PrintdirsAppend | main.go:347-359 | Two calls in a row act as one call on the concatenated directories. |
| Printer.PrintdirsAddedElems | main.go:352-358 | The appended directories are exactly those of the input not known before, each once. |
| Printer.PrintdirsAddedOrder | main.go:352-358 | The appended directories come in the order of their first occurrence in the input. |
| Printer.Includes | main.go:361-373 | There is one `-I` flag per learned directory, in some order, followed by the flags of the system directories in their order. |
| Printer.IncludesOrderIndependent | main.go:366-368 | Two iteration orders of the known map give the same flags, reordered. |
| Printer.Sort | main.go:379 | The sorted list is ordered and a permutation of its input. |
| Printer.SortedUnique | main.go:379 | Two sorted permutations of each other are equal, so any correct sort gives this result. |
| Printer.Flush | main.go:375-383 | The learned list becomes sorted and stays a permutation of itself. The lines written are one `-I` flag per learned directory, in that sorted order. The registered system directories are not consulted: they are written only when they were learned, which `main` does by default. |
| Printer.FlushWrites | main.go:375-383 | `Flush` writes the line "-I" + d exactly when d is a learned directory. |
| Printer.FlushDeterministic | main.go:375-383 | What `Flush` writes depends only on which directories were learned, not on the order they were learned in. |
| Driver.Setup | main.go:451-462 | The printer `main` builds before the index: the system directories `systemheaders` found are registered, and under `-sys` (on by default) they are learned as well. Otherwise nothing is learned. The invariant holds. |
| Driver.SystemDirsFlushed | main.go:460-462 | Under `-sys`, every system directory is among the lines the final `Flush` writes, whatever the rounds learned after the setup. |
| Driver.FoundMember | main.go:402-408 | The directories one header's search hands to `Printdirs` are the renderings of those the search reports. A failed search hands over none. |
| Driver.FoundAllMember | main.go:400-409 | A directory reaches the printer exactly when it renders a directory that some header's search reports. |
| Driver.LearnedExact | main.go:385-415 | On an index with distinct root paths, a file's search teaches the printer exactly the directories P for which P + h is a kept header file, for some header h of the file. |
| Driver.RequeuedExact | main.go:399-414 | On such an index a file is queued again exactly when one of its headers is a kept header file below some directory. |
| Driver.SearchFile | main.go:385-415 | Output with no header list changes nothing. Otherwise every directory reported for some header is learned. The file is queued again exactly when some header was found. |
| Driver.FileOutcome | main.go:388-414 | Given the compiler's output for a file, the printer only learns directories, and it keeps its system directories and its invariant. The file is searched again only when the output gave a header list. When it is not searched again, the printer is unchanged. Driver.LearnedExact and Driver.RequeuedExact state exactly what is learned and when the file is queued again. |
| Driver.NothingResolvedNothingFound | main.go:399-409 | When none of a file's headers is found, no directory reaches `Printdirs`. |
| Driver.SearchStep | main.go:494-496 | One job either appends its file to the queue or leaves the queue alone. When it leaves the queue alone, the printer is unchanged. The printer only learns directories and keeps its system directories and its invariant. |
| Driver.Process | main.go:488-498 | Searching a batch in order only adds to what the printer knows, keeps the system directories and the invariant, and queues no more files than the batch holds. Driver.ProcessFacts adds that the queued files are some of the batch's files. |
| Driver.Take | main.go:488-496 | One pass of the inner loop searches the next file of the list against the printer left by the files before it. |
| Driver.Work | main.go:494-496 | One worker job runs `searchFile` on the file against the current printer, and appends the file to the queue exactly when the search asks for that. |
| Driver.ProcessFacts | main.go:488-498 | Searching a batch only adds to what the printer knows and keeps the system directories. The files queued again are a sub-multiset of the batch, and they are all of it only when none is dropped. |
| Driver.RunBatch | main.go:488-498 | The inner loop takes `nworks` files, or all that are left, or none when `nworks` is 0. It searches them in order. |
| Driver.RequeueFront | main.go:499 | Putting some of the taken files back in front of the rest never gains a file. The list is unchanged exactly when all the taken files are put back. |
| Driver.RoundFacts | main.go:486-500 | A round never gains a file. It leaves the list unchanged exactly when every file taken is queued again, which always happens when `nworks` is 0. It only adds to what the printer knows. |
| Driver.Round | main.go:486-500 | The taken files are the front of the list. The requeued ones go in front of the untaken rest. No file is gained. The list stays as it was exactly when every file taken is put back. |
| Driver.Rounds | main.go:486-500 | Running up to n rounds of `main`'s loop, stopping once the list is empty, never gains a file. The printer only learns, and it keeps its system directories and its invariant. |
| Driver.SystemDirsSurviveRounds | main.go:460-502 | Under `-sys`, after any number of rounds following the setup, the final `Flush` writes every system directory. |

## Left out

- `work_pool.go`, goroutines and mutexes are not modelled. The workers of one round run one after the other, in the order the round took the files. Two consequences:
  - Each worker's compiler run sees the printer as the previous worker left it. In Go, a worker may see any interleaving.
  - Requeued files keep batch order. In Go they are in completion order.
- The compiler runs (`exec` of `$CC`, default `gcc`, and the `ccflags`) are not modelled:
  - The `-M -MG` run is the `compile` parameter: a function of the file and of the printer state that `Includes` renders.
  - The `-E -v` run's output is given as its lines. `bufio.Scanner`'s line splitting is left out.
  - The error texts, built from `err` and stderr, are left out. A listing failure is the single error `NoOutput`.
- Output and side effects are not modelled: writing to stderr, the logger, timing, flag parsing, and `os.Create` of the output file. `Flush` returns the lines it writes.
- The `log.Fatal` calls after `Scan` and `collect` are modelled as the failure results they react to. The process exit is not modelled.
- `systemheaders` failing is not modelled. Its error comes from running the compiler (`CombinedOutput`, main.go:293-296), and that run is left out. The model takes the compiler's output lines as given.
- The outer `for l.Len() != 0` loop is modelled one round at a time (`Round`) and for a bounded number of rounds (`Rounds`). Its termination is not modelled, and it does not always terminate:
  - With `nworks` = 0 it never takes a file. A negative `nworks` makes `newPool` (in `work_pool.go`) panic before the loop, since a channel cannot have a negative capacity. The model's round takes no file for any `nworks` ≤ 0.
  - A file whose headers keep being found is queued again every round.
- `searchSystemHeader` (main.go:319-326) is never called and is not modelled.
- The `filepath` functions are abstracted:
  - `filepath.Abs`, `Join`, `Split`, `Dir` and `Clean` work on sequences of path elements, and root paths are taken as already absolute.
  - `filepath.IsAbs` is modelled for Unix paths only.
- Directory listings are modelled as follows:
  - They come in the order the tree value gives. `ioutil.ReadDir` sorts by name.
  - A symbolic link is an entry of another kind, because `Lstat` does not follow it.
- Directory listings never hold an empty name (the `WellNamed` assumption). Scanning the file-system root `/` itself would give `buildtree` an empty base name, and `name[0]` at main.go:164 would panic. The model does not cover that case.
- Strings are sequences of characters. Go's byte slices and UTF-8 are not distinguished.
- Text.Ext: its own contract states only that the extension is no longer than the path. Text.ExtIsFinalSuffix gives the exact characterisation.
- Toolchain.RemoveContinuations: its own contract states only that the text does not grow. Toolchain.ParseDepsContinuation states its effect on parsing.
- HeaderIndex.Resolve: it has no contract of its own, because it is the reference `HeaderIndex.Search` is proved equal to. HeaderIndexTheorems.ResolveExact states what it reports.
- FileSystem.Collect: its own contract states only that the emitted and failing paths lie below the walked entry. FileSystem.CollectExact states which paths are emitted and when the walk fails.
- FileSystem.CollectAll: likewise, with FileSystem.CollectAllExact.
- `Printer.Sort` is an insertion sort, not `sort.Sort`'s algorithm. `Printer.SortedUnique` shows the result is the same for any correct sort.

## Behaviour of main.go worth knowing

- A file is searched again whenever any of its headers is found in the index, even when no new directory is learned (main.go:407-413).
- A header root that cannot be scanned ends the program (main.go:468-471).
- `Flush` prints the learned directories, sorted (main.go:379-382). The system directories are printed because `main` learns them under `-sys`, which is on by default (main.go:460-462).
- `listheaders` parses any non-empty output, even when the compiler reported an error (main.go:234-237).
- Scanning the same root path twice replaces the earlier sentinel root (main.go:122). The completeness theorems exclude a root that a later scan replaced.
- A second "search starts here" marker line is skipped (main.go:303-306).
