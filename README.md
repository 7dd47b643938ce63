# A verified model of the laughing-waffle search engine core

laughing-waffle is a desktop content-search tool. A crawler walks a directory
tree and queues every readable file. A pool of four scan workers takes files
off the queue, smallest first, and streams each one through a
Knuth–Morris–Pratt pattern automaton. Every match goes into a result buffer,
with up to 16 characters of context before it. The user interface polls the
engine for results, status and metrics.

This project models two sequential cores of that engine in Dafny:

* **The pattern automaton** (`automaton.cpp`, `automaton.h`). The model is
  imperative, like the source:
  * the failure function is computed into an array by the nested loop;
  * the state table is filled in place by the two loops;
  * the `Automaton` class keeps a mutable cursor.

  Module `Kmp` gives an independent reference definition of the automaton:
  * the longest suffix of the text read so far that is a prefix of the
    pattern (`MatchLen`);
  * the failure function (`Fail`);
  * the transition function (`Delta`).

  The main theorem is `Kmp.RunIsMatchLen`: stepping the automaton with
  auto-reset always tracks `MatchLen`. So the terminal state marks exactly
  the occurrences of the pattern, overlapping ones included.

* **The engine's state machine** (`finder.cpp`, `finder.h`), with the
  threads removed. Class `Search.Finder` holds the engine's fields. Each
  public operation, each crawler restart and each worker iteration is one
  atomic method on those fields:
  * the parameter setters;
  * stop;
  * the crawler's restart and crawl;
  * enqueueing a file;
  * a worker taking a smallest file and scanning it;
  * the finished rule;
  * the result, status and metrics readers.

  The per-file scan loop (blocks of 4096 characters, a sliding context
  window, an automaton step per character) is proved against module
  `ScanSpec`. That module defines, on the text alone, the entries a scan
  appends: one per position at which the text read so far ends with the
  pattern, each carrying the window's content minus the pattern.

Module `FinderTypes` holds the value types: `Entry`, `EntryList`, `Metrics`
and `Params`. It also holds the collaborators the engine consults:
* file sizes and file contents (`Env`);
* the two character predicates that clear the window (`CharClasses`).

Module `FileQueue` models the work queue as a sequence of paths together
with the size function its comparator reads.

A scan's cancellation is a parameter `cancelAt: Option<nat>`. `Some(k)`
with `k < |text|` means the worker's flag is raised once `k` characters
have been processed, so every flag check from then on sees it, including
the check after the loop. `Some(k)` with `k >= |text|` means the flag is
raised after the last character has been processed and before the check
after the loop (finder.cpp:255), so the whole text is read but the scan is
not counted. `None` means the flag stays lowered. Lock contention in
`getResult` is a parameter `contended`.

Replaying input after a reset reproduces the same sequence of terminal and
non-terminal states. This follows from the contracts of
`Automata.Automaton.Reset` (the cursor is back at 0) and
`Automata.Automaton.Step` (with auto-reset, the cursor moves to `Delta`):
* the state after a replay is `Run` of the replayed text;
* `Run` is a function of the pattern and the text alone.

## Model

| member | source | states |
|---|---|---|
| Kmp.LongestSuffixPrefix | automaton.cpp:17-21 | the result is a border length within the bound, and no longer length up to the bound is one |
| Kmp.MatchLen | automaton.cpp:45-57 | the length of the longest suffix of the text that is a prefix of the pattern: it is one, and nothing longer is |
| Kmp.Fail | automaton.cpp:11-22 | the length of the longest proper border of `p[..i]`: shorter than `i`, a border, and maximal |
| Kmp.Delta | automaton.cpp:25-38 | the automaton's transition never leaves the states `0..|p|` |
| Kmp.DeltaIsMatchLen | automaton.cpp:25-38 | from state `i` on character `c`, the transition lands on the longest suffix of `p[..i] + [c]` that starts the pattern |
| Kmp.MatchLenShift | automaton.cpp:45-57 | the longest match after one more character depends only on the previous longest match and the character |
| Kmp.DeltaAdvances | automaton.cpp:45-57 | one transition from the longest match of `t` gives the longest match of `t + [c]` |
| Kmp.RunIsMatchLen | automaton.cpp:8-57 | KMP correctness: after any text, the state reached from 0 is the length of the longest suffix of the text that is a prefix of the pattern |
| Kmp.RunTerminalIffOccurrence | automaton.cpp:45-67 | the run is in the last state exactly when the text read so far ends with the pattern |
| Kmp.OverlapExample | automaton.cpp:45-67 | for "aab" over "aaab", the run is terminal after the final character and after no earlier prefix |
| Automata.Table | automaton.cpp:24 | the matching automaton has one state per pattern prefix, `|p| + 1` in all |
| Automata.ImplementsIsTable | automaton.cpp:24-40 | a table that realises the transition function is the matching automaton's table: the table is unique |
| Automata.BuiltImplements | automaton.cpp:24-40 | a table laid out over the failure function (own transition on top of the failure state's, only the last state terminal) realises the transition function |
| Automata.StateImplements | automaton.cpp:29-38 | in such a table, state `i` has a transition on `c` exactly when the transition function leaves state 0, and it leads where that function does |
| Automata.TableImplements | automaton.cpp:24-40 | the matching automaton's table has `|p| + 1` states, only the last terminal (state 0 for the empty pattern), and a transition exactly where the transition function leaves state 0 |
| Automata.TargetsInRange | automaton.cpp:25-38 | every present transition leads to one of the states `1..|p|`, never to 0 |
| Automata.OwnTransitionWins | automaton.cpp:25-38 | state `i < |p|` moves on the pattern's own character `p[i]` to `i + 1`, whatever the inherited transitions say |
| Automata.ComputeSuffix | automaton.cpp:11-22 | `suffix[0] == -1`, and for every `i >= 1`, `suffix[i]` is the longest proper border of the pattern's first `i` characters, so `0 <= suffix[i] < i` |
| Automata.BorderChain | automaton.cpp:17-20 | the inner loop stops on a border of `str[..i]` that `str[i]` extends, or on -1, and it skips no longer border that `str[i]` extends |
| Automata.BorderChainStep | automaton.cpp:18-19 | following one failure link reaches a border again, and skips no border in between |
| Automata.FailExtends | automaton.cpp:21 | the value the inner loop stops on, plus one, is the next failure value |
| Automata.InheritMissing | automaton.cpp:32-37 | copying the missing keys gives the union of both maps' keys, with the state's own transitions winning and the inherited ones filling the rest |
| Automata.InheritInto | automaton.cpp:30-37 | state `i` gets state `k`'s transitions under its own, and no other state changes |
| Automata.InheritTransitions | automaton.cpp:29-38 | after the loop over `i >= 1`, each state holds its own transition on top of those of state `suffix[i]`, state 0 unchanged, none terminal |
| Automata.SetOwnTransitions | automaton.cpp:25-27 | each state `i < |str|` holds only its transition on `str[i]` to `i + 1`; the last state holds none |
| Automata.BuildStates | automaton.cpp:24-40 | the built table has `|str| + 1` states, only the last terminal, state 0 holds its own transition, and state `i >= 1` holds its own on top of state `suffix[i]`'s |
| Automata.Automaton.constructor | automaton.cpp:3-6 | the size constructor: `size` blank states and the cursor at 0 |
| Automata.Automaton.FromString | automaton.cpp:8-43 | the automaton built for `str` is the matching automaton for `str` (its table is `Table(str)`), with the cursor at 0 |
| Automata.Automaton.Step | automaton.cpp:45-57 | returns true exactly when the active state has a transition on the character, and then follows it; otherwise the cursor goes to 0 with auto-reset and stays put without it; with auto-reset, the cursor always moves to `Delta` |
| Automata.Automaton.Reset | automaton.cpp:59-62 | the cursor is back at 0, which is terminal only for the empty pattern |
| Automata.Automaton.IsTerminal | automaton.cpp:64-67 | the active state is terminal exactly when the cursor is on the last state, and the query changes nothing |
| FileQueue.FileSizeCmp | finder.cpp:12-15 | the comparator ranks `lhs` below `rhs` exactly when `rhs` is the smaller file |
| FileQueue.FileSizeCmpIsStrictWeakOrder | finder.cpp:12-15 | the comparator is a strict weak order, as the priority queue needs: irreflexive, asymmetric, transitive, and two paths are unranked against each other exactly when their sizes are equal |
| FileQueue.IsTop | finder.h:69 | a path may be `top()`: it is queued and no queued path outranks it |
| FileQueue.TopIsSmallest | finder.cpp:12-15 | under the comparator, a path no queued path outranks has a minimal size |
| FileQueue.TopExists | finder.h:64-69 | a non-empty queue always has such a top |
| FileQueue.RemoveAt | finder.cpp:100 | popping position `k` keeps the paths before it and shifts the paths after it down by one |
| FileQueue.RemoveAtContents | finder.cpp:98-100 | popping removes one occurrence of the popped path and nothing else |
| FileQueue.SizesOfPush | finder.cpp:199-202 | pushing a path adds its size to the queue's total size |
| FileQueue.SizesOfRemove | finder.cpp:98-100 | popping any path takes exactly its size off the queue's total size |
| FileQueue.ReadablePaths | finder.cpp:181-191 | the crawl queues at most one path per listed file |
| FileQueue.ReadablePathsContents | finder.cpp:181-191 | a path is queued by the crawl exactly when some listed file with that path is readable |
| FileQueue.ReadablePathsPush | finder.cpp:186-190 | one more listed file adds its path and its size when it is readable, and nothing when it is not |
| ScanSpec.SegStart | finder.cpp:232-235 | the point just past the last window-clearing character: no clearing character after it, and a clearing character just before it |
| ScanSpec.ScanOutputFields | finder.cpp:238-246 | every entry a scan appends names the scanned file and the pattern, and a scan appends no more entries than the cap still allows |
| ScanSpec.MatchEndsExact | finder.cpp:237-247 | the reported positions are exactly the match ends of the text, each once, in increasing order |
| ScanSpec.EntriesAtMatchEnds | finder.cpp:237-247 | the `k`-th entry is reported at the `k`-th match end, and carries the file path, the window minus the pattern, the pattern and "after" |
| ScanSpec.EntriesPrefix | finder.cpp:218-227 | the entries of a prefix of the text are a prefix of the entries of the text |
| ScanSpec.StopIsTake | finder.cpp:218-227 | a scan that stops at the bound, or once the cap's budget of entries is used up, has appended the first entries of the text up to the bound, as many as the budget allows |
| ScanSpec.MatchEndIffEndsWith | finder.cpp:232-237 | for a non-empty pattern of ordinary characters, a position is reported exactly when the text read so far ends with the pattern |
| ScanSpec.BeforeContextShape | finder.cpp:240-251 | at a match, the window holds the whole pattern, and the before-context has at most 16 characters, contains no clearing character, is exactly the characters before the match since the last clearing character (at most 16), and followed by the pattern it is the window |
| ScanSpec.WindowStep | finder.cpp:229-251 | one character of the loop: a clearing character empties the window; any other character is pushed and the window never exceeds 16 plus the pattern length; at a match, the before-context is the window minus the pattern; at capacity the oldest character is dropped |
| ScanSpec.OneEntryPerOccurrence | finder.cpp:215-247 | given a non-empty pattern of ordinary characters, no cancellation and room under the cap: exactly one entry per position at which the text read so far ends with the pattern (overlapping ones included), in order, each with the window's before-context |
| Search.CopyFront | finder.cpp:241-244 | the copy loop yields the first `n` characters of the window |
| Search.Finder.constructor | finder.cpp:17-27 | all counters start at 0, status idle, the parameters invalid and done, the result empty and marked first, the queue empty, and every cancel flag lowered |
| Search.Finder.SetDirectory | finder.cpp:130-139 | the parameters need a restart, `invalid` holds exactly when the directory or the pattern is empty, the pattern is kept, and the crawl is told to stop |
| Search.Finder.SetPattern | finder.cpp:141-150 | the parameters need a restart, `invalid` holds exactly when the directory or the pattern is empty, the directory is kept, and the crawl is told to stop |
| Search.Finder.RaiseAllFlags | finder.cpp:157-159 | every worker's cancel flag is raised |
| Search.Finder.Stop | finder.cpp:152-162 | status "stopped", the crawl cancelled, every worker flag raised, and the queue empty |
| Search.Finder.Restart | finder.cpp:37-68 | the queue is empty, the queued pattern is the new pattern, every worker flag is raised, the result is empty and marked first, and the parameters are done; invalid parameters leave every counter, the status and the cancel flag untouched; valid ones zero the counters, lower `cancel` and set status "searching" |
| Search.Finder.StartSearch | finder.cpp:61-68 | nothing counted or found yet, the crawl not cancelled and not finished, status "searching" |
| Search.Finder.EnqueFileToScan | finder.cpp:195-204 | the file count and the total size grow by one file and its size, and the path joins the queue, keeping the scanned-below-total invariant |
| Search.Finder.Crawl | finder.cpp:164-193 | an uncancelled crawl queues the readable files' paths in listing order and adds their count and sizes to the totals; a cancelled one queues nothing |
| Search.Finder.CrawlFile | finder.cpp:181-191 | a readable file is counted and queued, an unreadable one is skipped, so the totals and the queue grow by the readable files seen so far |
| Search.Finder.CompleteCrawl | finder.cpp:73-78 | after the crawl, the crawl is marked finished, and status becomes "finished" exactly when every counted file has been scanned |
| Search.Finder.PushChar | finder.cpp:229-237 | the automaton is in the state the text determines, the window never exceeds capacity, and the automaton is terminal on a non-clearing character exactly at a match end |
| Search.Finder.ScanChar | finder.cpp:229-251 | the scan state after one more character: the automaton, the window, the buffer and the count all agree with the reference scan of the text read so far |
| Search.Finder.NextChar | finder.cpp:224-251 | one character processed while the flag is unseen and the cap not reached, staying within the bound and the cap |
| Search.Finder.ScanBlock | finder.cpp:224-252 | the characters of one block, processed up to its end unless the flag is seen or the cap reached, with the scan state in agreement with the reference scan |
| Search.Finder.NextBlock | finder.cpp:223-252 | one read of at most a block of characters makes progress through the text and keeps the scan state in agreement with the reference scan |
| Search.Finder.ScanBlocks | finder.cpp:218-253 | the read loop stops at the bound the flag sets or at the cap, and appends the reference entries of the text read, for every block size of at least 1 |
| Search.Finder.StartScan | finder.cpp:215-216 | a fresh automaton for the pattern and an empty window: the state of a scan before its first character |
| Search.Finder.ScanText | finder.cpp:213-253 | the scan of an opened file appends the first entries of the text up to the cancel point, as many as the cap allows, and the count never exceeds the cap |
| Search.Finder.Scan | finder.cpp:207-265 | a file that fails to open appends nothing; an opened file appends its reference entries; only an opened file whose flag stays lowered counts as scanned (count and size), and then status 4 is set exactly when the cap is reached |
| Search.Finder.PopTop | finder.cpp:98-100 | the taken path is a smallest queued file, removed once from the queue, with its size taken off the queue's total size |
| Search.Finder.TakeWork | finder.cpp:98-101 | a smallest queued file is taken and worker `i`'s flag is lowered, with no other flag changed |
| Search.Finder.ScanPopped | finder.cpp:99-104 | scanning the taken file for the queued pattern appends its reference entries, and restores the engine invariant once the scan is counted |
| Search.Finder.ReportIfFinished | finder.cpp:106-108 | status becomes "finished" exactly when the crawl is done and every counted file has been scanned, and is kept otherwise |
| Search.Finder.WorkerStep | finder.cpp:88-108 | one worker iteration: a smallest file is taken, its reference entries are appended, it counts as scanned only when it opened and was not cancelled, and the finished and too-many-matches rules fix the new status, all while keeping the engine invariant |
| Search.Finder.GetResult | finder.cpp:267-280 | without contention, the caller gets the whole buffer and the buffer is left empty and not first; with contention, the caller gets an empty non-first list and the buffer is untouched |
| Search.Finder.GetStatus | finder.cpp:282-285 | the status is always one of the five codes 0..4 |
| Search.Finder.GetMetrics | finder.cpp:287-290 | the snapshot is exactly the four counters, and the scanned counters never exceed the totals |

## Left out

- Threads, condition variables, mutexes, atomics, `quit` and the destructor's joins (finder.cpp:28-35, 82-128) are not modelled. Each public method, each restart and each worker iteration is one atomic step instead. What a concurrent stop or restart does to a running scan is the `cancelAt` parameter.
- Lock contention in `getResult` is the `contended` parameter; whether `try_to_lock` succeeds is not modelled.
- The directory walk (`QDirIterator`, `QDir` filters, symlinks, hidden files) is replaced by a flattened listing `seq<FileInfo>` with a readability flag per file. The cancel flag is one value for the whole atomic crawl.
- `QFile` size and open, and `QTextStream`'s decoding and newline translation, are the `Env` functions `size` and `content`. A file that fails to open yields `None`.
- Search.Finder.PopTop: file sizes are one fixed function `env.size`, so files are assumed not to change while a search runs. The code re-reads `QFile(...).size()` in the comparator on every heap operation (finder.cpp:14). A file that changes size while queued changes its heap key, so the real `top()` need not be a smallest file; the model does not capture that.
- Search.Finder.GetMetrics: `scannedSize <= totalSize` also relies on fixed file sizes. The code reads the size again at enqueue (finder.cpp:200) and after the scan (finder.cpp:260). A file that grows in between can make `scannedSize` exceed `totalSize`; the model does not capture that.
- File text (`Env.content`) is a `seq<char>` of Unicode scalar values. The code scans `QChar`s, which are UTF-16 code units. Each code unit is stepped, classified and counted separately: toward the 16-character context, the window capacity and the 4096-character block. A character outside the Basic Multilingual Plane is two `QChar`s in the code but one `char` here. Dafny's `char` has no surrogate values, so such text cannot be modelled code unit by code unit. On it, the before-context's length and where trimming splits can differ from the code.
- `isUnsupportedChar` and `isLineSeperator` (helpers.h) are uninterpreted predicates in `CharClasses`.
- A pattern containing a window-clearing character is excluded (`NoBreak`). On such a pattern the unsigned subtraction at finder.cpp:242 can underflow.
- `humanizeSize` and the window code (helpers.cpp, mainwindow.cpp, mainwindow.h) are not part of this model.
- Search.Finder.GetMetrics (widths): the counters are unbounded `nat`s. The 64-bit width of the metrics and the `int` width of `entryCount` and `statusCode` are not modelled, because no realistic run reaches them.
- The `line` field of `Entry` (finder.h:30) is left out, because finder.cpp:246 builds entries without it. `MaxAfterChars` is declared, but no code uses it, and `after` is always the literal "after".
- `isCrawlingFinished` is declared in finder.h:77 but never defined, so it has no model.
- `maxEntryListSize` is used but never declared in the shown files. It is a positive constructor parameter here.
- The priority queue's heap order is not modelled. The queue is the sequence of queued paths, and a pop takes any path of minimal size.
  - This follows the comparator as written: the top is a SMALLEST file.
  - The documentation calls the queue "descending by size". On that point the model follows the code.
- A file that fails to open, or whose scan is cancelled, never counts as scanned. After such a file, `scannedCount` can stay below `totalCount`, so status 2 ("finished") may never be stored. The model keeps this behaviour of the code.
- The size constructor is private in automaton.h:19. Dafny has no private members, so "only `fromString` creates automata" is not enforced. Only `FromString` establishes `Valid()`.
- Search.Finder.Scan: the entry count and the buffer grow together within one atomic step. In the code, `entryCount` and the buffer are updated under a lock, while other workers may read `entryCount` without that lock.
- Search.Finder.Restart: the `quit` branch (finder.cpp:52-54) is not modelled, and the crawl that follows a valid restart is the separate step `CompleteCrawl`.
