/**
 * The search engine's state and the steps that change it: the parameter
 * setters, the crawler's restart and crawl, a scan worker taking the
 * smallest queued file and scanning it, stop, and the readers the user
 * interface polls. Each step is one atomic transition of the state.
 */
module Search {
  import opened Kmp
  import opened Automata
  import opened FinderTypes
  import opened FileQueue
  import opened ScanSpec

  /** The first `n` characters of the window, copied one at a time. */
  method CopyFront(que: string, n: nat) returns (before: string)
    requires n <= |que|
    ensures before == que[..n]
  {
    before := [];
    for k := 0 to n
      invariant before == que[..k]
    {
      before := before + [que[k]];
    }
  }

  class Finder {
    static const ScanThreadsCount: nat := 4
    static const ReadingBlockSize: nat := 4096

    /** Cap on the number of entries one search reports. */
    const maxEntryListSize: nat
    /** File sizes, file contents and character classes. */
    const env: Env

    var entryCount: nat
    /** 0 idle, 1 searching, 2 finished, 3 stopped, 4 too many matches. */
    var statusCode: int
    var crawlFinished: bool
    var scannedCount: nat
    var scannedSize: nat
    var totalCount: nat
    var totalSize: nat

    var params: Params
    var result: EntryList
    /** The queued paths; the heap's internal order is not modelled. */
    var fileQueue: seq<string>
    /** The pattern the queued files are to be scanned for. */
    var queuedPattern: string
    var cancel: bool
    /** One cancel flag per scan worker. */
    const scanCancel: array<bool>
    /** The crawler has restarted on valid parameters and not yet finished its crawl. */
    ghost var crawling: bool

    /** The result buffer holds at most the counted entries, all for the queued pattern, within the cap. */
    ghost predicate ResultValid()
      reads this
    {
      |result.list| <= entryCount <= maxEntryListSize &&
      forall k :: 0 <= k < |result.list| ==> result.list[k].entry == queuedPattern
    }

    /** The invariant every step keeps. */
    ghost predicate Valid()
      reads this
    {
      ResultValid() &&
      scanCancel.Length == ScanThreadsCount &&
      0 <= statusCode <= 4 &&
      scannedCount + |fileQueue| <= totalCount &&
      scannedSize + SizesOf(fileQueue, env.size) <= totalSize
    }

    constructor (env: Env, maxEntryListSize: nat)
      requires maxEntryListSize > 0
      ensures Valid() && fresh(scanCancel)
      ensures this.env == env && this.maxEntryListSize == maxEntryListSize
      ensures entryCount == 0 && statusCode == 0 && !crawlFinished
      ensures scannedCount == 0 && scannedSize == 0 && totalCount == 0 && totalSize == 0
      ensures params == Params(true, true, "", "") && result == EntryList(true, [])
      ensures fileQueue == [] && queuedPattern == "" && !cancel && !crawling
      ensures scanCancel[..] == seq(ScanThreadsCount, _ => false)
    {
      this.env := env;
      this.maxEntryListSize := maxEntryListSize;
      entryCount := 0;
      statusCode := 0;
      crawlFinished := false;
      scannedCount := 0;
      scannedSize := 0;
      totalCount := 0;
      totalSize := 0;
      params := Params(true, true, "", "");
      result := EntryList(true, []);
      fileQueue := [];
      queuedPattern := "";
      cancel := false;
      scanCancel := new bool[ScanThreadsCount](_ => false);
      crawling := false;
    }

    /** New search root: the parameters need a restart, and the running crawl is told to stop. */
    method SetDirectory(directory: string)
      modifies this`params, this`cancel
      ensures !params.done && params.directory == directory && params.pattern == old(params.pattern)
      ensures params.invalid <==> directory == [] || params.pattern == []
      ensures cancel
    {
      params := params.(done := false, directory := directory);
      params := params.(invalid := params.directory == [] || params.pattern == []);
      cancel := true;
    }

    /** New pattern: the parameters need a restart, and the running crawl is told to stop. */
    method SetPattern(pattern: string)
      modifies this`params, this`cancel
      ensures !params.done && params.pattern == pattern && params.directory == old(params.directory)
      ensures params.invalid <==> params.directory == [] || pattern == []
      ensures cancel
    {
      params := params.(done := false, pattern := pattern);
      params := params.(invalid := params.directory == [] || params.pattern == []);
      cancel := true;
    }

    /** Raises every worker's cancel flag. */
    method RaiseAllFlags()
      modifies scanCancel
      ensures forall i :: 0 <= i < scanCancel.Length ==> scanCancel[i]
    {
      for i := 0 to scanCancel.Length
        invariant forall j :: 0 <= j < i ==> scanCancel[j]
      {
        scanCancel[i] := true;
      }
    }

    /** Stops the search: status "stopped", every flag raised, nothing left to scan. */
    method Stop()
      requires Valid()
      modifies this`statusCode, this`cancel, this`fileQueue, scanCancel
      ensures Valid()
      ensures statusCode == 3 && cancel && fileQueue == []
      ensures forall i :: 0 <= i < scanCancel.Length ==> scanCancel[i]
    {
      statusCode := 3;
      cancel := true;
      RaiseAllFlags();
      fileQueue := [];
    }

    /**
     * The crawler's reaction to changed parameters: it empties the queue,
     * adopts the new pattern, cancels every worker and clears the results;
     * on valid parameters it also resets the counters and starts searching.
     */
    method Restart()
      requires Valid() && !params.done && !crawling
      modifies this, scanCancel
      ensures Valid()
      ensures fileQueue == [] && queuedPattern == params.pattern
      ensures forall i :: 0 <= i < scanCancel.Length ==> scanCancel[i]
      ensures result == EntryList(true, [])
      ensures params == old(params).(done := true)
      ensures crawling == !params.invalid
      ensures params.invalid ==>
        entryCount == old(entryCount) && statusCode == old(statusCode) &&
        scannedCount == old(scannedCount) && scannedSize == old(scannedSize) &&
        totalCount == old(totalCount) && totalSize == old(totalSize) &&
        crawlFinished == old(crawlFinished) && cancel == old(cancel)
      ensures !params.invalid ==>
        entryCount == 0 && statusCode == 1 && !cancel && !crawlFinished &&
        scannedCount == 0 && scannedSize == 0 && totalCount == 0 && totalSize == 0
    {
      fileQueue := [];
      queuedPattern := params.pattern;
      RaiseAllFlags();
      result := EntryList(true, []);
      params := params.(done := true);
      if params.invalid {
        return;
      }
      StartSearch();
    }

    /** A new search begins: nothing counted or found yet, status "searching". */
    method StartSearch()
      modifies this`cancel, this`entryCount, this`statusCode, this`scannedCount, this`scannedSize
      modifies this`totalCount, this`totalSize, this`crawlFinished, this`crawling
      ensures entryCount == 0 && statusCode == 1 && !cancel && !crawlFinished && crawling
      ensures scannedCount == 0 && scannedSize == 0 && totalCount == 0 && totalSize == 0
    {
      cancel := false;
      entryCount := 0;
      statusCode := 1;
      scannedCount := 0;
      scannedSize := 0;
      totalCount := 0;
      totalSize := 0;
      crawlFinished := false;
      crawling := true;
    }

    /** Counts a file into the totals and queues it for the workers. */
    method EnqueFileToScan(filePath: string)
      requires Valid()
      modifies this`totalCount, this`totalSize, this`fileQueue
      ensures Valid()
      ensures totalCount == old(totalCount) + 1
      ensures totalSize == old(totalSize) + env.size(filePath)
      ensures fileQueue == old(fileQueue) + [filePath]
    {
      SizesOfPush(fileQueue, env.size, filePath);
      totalCount := totalCount + 1;
      totalSize := totalSize + env.size(filePath);
      fileQueue := fileQueue + [filePath];
    }

    /**
     * Queues every readable file of the listing, in order, unless the crawl
     * has been cancelled, in which case nothing is queued.
     */
    method Crawl(files: seq<FileInfo>)
      requires Valid()
      modifies this`totalCount, this`totalSize, this`fileQueue
      ensures Valid()
      ensures cancel ==> totalCount == old(totalCount) && totalSize == old(totalSize) && fileQueue == old(fileQueue)
      ensures !cancel ==>
        var paths := ReadablePaths(files);
        totalCount == old(totalCount) + |paths| &&
        totalSize == old(totalSize) + SizesOf(paths, env.size) &&
        fileQueue == old(fileQueue) + paths
    {
      ghost var seen: seq<FileInfo> := [];
      var rest := files;
      while rest != []
        invariant seen + rest == files
        invariant Valid()
        invariant cancel ==> totalCount == old(totalCount) && totalSize == old(totalSize) && fileQueue == old(fileQueue)
        invariant Crawled(seen, old(totalCount), old(totalSize), old(fileQueue))
        decreases |rest|
      {
        if cancel {
          return;
        }
        CrawlFile(rest[0], seen, old(totalCount), old(totalSize), old(fileQueue));
        assert seen + [rest[0]] + rest[1..] == seen + rest;
        seen := seen + [rest[0]];
        rest := rest[1..];
      }
      assert seen == files;
    }

    /** The totals and the queue have grown by the readable files among `seen`. */
    ghost predicate Crawled(seen: seq<FileInfo>, count0: nat, size0: nat, queue0: seq<string>)
      reads this
    {
      var paths := ReadablePaths(seen);
      totalCount == count0 + |paths| &&
      totalSize == size0 + SizesOf(paths, env.size) &&
      fileQueue == queue0 + paths
    }

    /** One listed file: queued if the user may read it, skipped otherwise. */
    method CrawlFile(f: FileInfo, ghost seen: seq<FileInfo>, ghost count0: nat, ghost size0: nat,
                     ghost queue0: seq<string>)
      requires Valid() && Crawled(seen, count0, size0, queue0)
      modifies this`totalCount, this`totalSize, this`fileQueue
      ensures Valid() && Crawled(seen + [f], count0, size0, queue0)
    {
      ReadablePathsPush(seen, f, env.size);
      if !f.readable {
        return;
      }
      EnqueFileToScan(f.path);
    }

    /**
     * The crawl of one restart: queue the listing, mark the crawl finished and,
     * if every counted file has already been scanned, report the search finished.
     */
    method CompleteCrawl(files: seq<FileInfo>)
      requires Valid() && crawling
      modifies this`totalCount, this`totalSize, this`fileQueue, this`crawlFinished, this`statusCode, this`crawling
      ensures Valid() && crawlFinished && !crawling
      ensures !old(cancel) ==>
        var paths := ReadablePaths(files);
        totalCount == old(totalCount) + |paths| &&
        totalSize == old(totalSize) + SizesOf(paths, env.size) &&
        fileQueue == old(fileQueue) + paths
      ensures old(cancel) ==>
        totalCount == old(totalCount) && totalSize == old(totalSize) && fileQueue == old(fileQueue)
      ensures statusCode == if scannedCount == totalCount then 2 else old(statusCode)
    {
      Crawl(files);
      crawlFinished := true;
      crawling := false;
      if crawlFinished && scannedCount == totalCount {
        statusCode := 2;
      }
    }

    /**
     * The state of a scan of `filePath` once it has read `t`: the automaton
     * is in the state `Run` reaches, the window is the trimmed window of
     * `t`, and the buffer and the count have grown by the entries of `t`.
     */
    ghost predicate Scanning(a: Automaton, que: string, t: string, filePath: string, pattern: string,
                             base: seq<Entry>, baseCount: nat)
      reads this, a
    {
      a.Valid() && a.pattern == pattern && a.activeStateIdx == Run(pattern, t) &&
      que == TrimmedWindow(t, pattern, env.chars) &&
      result.list == base + Entries(filePath, t, pattern, env.chars) &&
      entryCount == baseCount + |Entries(filePath, t, pattern, env.chars)|
    }

    /**
     * Pushes one character on the window and steps the automaton; a clearing
     * character empties the window. `hit` says the automaton is terminal on a
     * character that does not clear.
     */
    method PushChar(a: Automaton, que: string, ch: char, ghost t: string, pattern: string)
      returns (w: string, hit: bool)
      requires a.Valid() && a.pattern == pattern && a.activeStateIdx == Run(pattern, t)
      requires que == TrimmedWindow(t, pattern, env.chars) && NoBreak(pattern, env.chars)
      modifies a
      ensures a.Valid() && a.pattern == pattern && a.activeStateIdx == Run(pattern, t + [ch])
      ensures hit <==> IsMatchEnd(t + [ch], pattern, env.chars)
      ensures hit ==> |pattern| <= |w| && w[..|w| - |pattern|] == BeforeContext(t + [ch], pattern, env.chars)
      ensures |w| <= Capacity(pattern)
      ensures TrimmedWindow(t + [ch], pattern, env.chars) == if |w| == Capacity(pattern) then w[1..] else w
    {
      ghost var u := t + [ch];
      assert u[..|t|] == t;
      WindowStep(t, ch, pattern, env.chars, que);
      w := que + [ch];
      var _ := a.Step(ch, true);
      if env.chars.IsBreak(ch) {
        w := [];
        hit := false;
        return;
      }
      RunTerminalIffOccurrence(pattern, u);
      hit := a.IsTerminal();
    }

    /**
     * One character of a scan: push it on the window and step the automaton;
     * a clearing character empties the window, otherwise a terminal state
     * appends an entry with the window minus the pattern as its
     * before-context; at capacity the oldest character is dropped.
     */
    method ScanChar(a: Automaton, que: string, ch: char, ghost t: string,
                    filePath: string, pattern: string, ghost base: seq<Entry>, ghost baseCount: nat)
      returns (que': string)
      requires Scanning(a, que, t, filePath, pattern, base, baseCount)
      requires NoBreak(pattern, env.chars)
      modifies a, this`entryCount, this`result
      ensures Scanning(a, que', t + [ch], filePath, pattern, base, baseCount)
      ensures result.first == old(result.first)
      ensures entryCount == old(entryCount) + (if IsMatchEnd(t + [ch], pattern, env.chars) then 1 else 0)
    {
      ghost var u := t + [ch];
      ghost var added := if IsMatchEnd(u, pattern, env.chars)
        then [Entry(filePath, BeforeContext(u, pattern, env.chars), pattern, "after")] else [];
      EntriesPush(filePath, t, ch, pattern, env.chars);
      assert base + Entries(filePath, u, pattern, env.chars) == old(result.list) + added;
      var w, hit := PushChar(a, que, ch, t, pattern);
      if hit {
        entryCount := entryCount + 1;
        var before := CopyFront(w, |w| - |pattern|);
        result := result.(list := result.list + [Entry(filePath, before, pattern, "after")]);
      }
      assert result.list == old(result.list) + added;
      que' := w;
      if |w| == Entry.MaxBeforeSize + |pattern| {
        que' := w[1..];
      }
    }

    /**
     * The character at position `n` of the text, read with the flag unseen
     * and the cap not reached; `t` is the text read so far.
     */
    method NextChar(a: Automaton, que: string, text: string, ghost t: string, n: nat, cancelAt: Option<nat>,
                    filePath: string, pattern: string, ghost base: seq<Entry>, ghost baseCount: nat)
      returns (que': string, ghost t': string)
      requires n < |text| && t == text[..n]
      requires n <= CancelBound(cancelAt, |text|) && !CancelSeen(cancelAt, n) && entryCount < maxEntryListSize
      requires Scanning(a, que, t, filePath, pattern, base, baseCount)
      requires NoBreak(pattern, env.chars)
      modifies a, this`entryCount, this`result
      ensures n + 1 <= CancelBound(cancelAt, |text|) && t' == text[..n + 1]
      ensures Scanning(a, que', t', filePath, pattern, base, baseCount)
      ensures result.first == old(result.first) && entryCount <= maxEntryListSize
    {
      que' := ScanChar(a, que, text[n], t, filePath, pattern, base, baseCount);
      t' := t + [text[n]];
      assert t' == text[..n + 1];
    }

    /**
     * The characters `text[pos..end]` of one block read, one at a time while
     * the cancel flag is unseen and the cap not reached.
     */
    method ScanBlock(a: Automaton, que: string, text: string, ghost t: string, pos: nat, end: nat,
                     cancelAt: Option<nat>, filePath: string, pattern: string,
                     ghost base: seq<Entry>, ghost baseCount: nat)
      returns (que': string, n: nat, ghost t': string)
      requires pos <= end <= |text| && pos <= CancelBound(cancelAt, |text|) && t == text[..pos]
      requires Scanning(a, que, t, filePath, pattern, base, baseCount)
      requires NoBreak(pattern, env.chars) && entryCount <= maxEntryListSize
      modifies a, this`entryCount, this`result
      ensures pos <= n <= end && n <= CancelBound(cancelAt, |text|) && t' == text[..n]
      ensures n < end ==> CancelSeen(cancelAt, n) || maxEntryListSize <= entryCount
      ensures Scanning(a, que', t', filePath, pattern, base, baseCount)
      ensures result.first == old(result.first) && entryCount <= maxEntryListSize
    {
      que' := que;
      n := pos;
      t' := t;
      while n < end && !(CancelSeen(cancelAt, n) || maxEntryListSize <= entryCount)
        invariant pos <= n <= end && n <= CancelBound(cancelAt, |text|) && t' == text[..n]
        invariant Scanning(a, que', t', filePath, pattern, base, baseCount)
        invariant result.first == old(result.first) && entryCount <= maxEntryListSize
      {
        que', t' := NextChar(a, que', text, t', n, cancelAt, filePath, pattern, base, baseCount);
        n := n + 1;
      }
    }

    /**
     * One round of the read loop, entered with the flag unseen and the cap
     * not reached: read the next block and scan it.
     */
    method NextBlock(a: Automaton, que: string, text: string, ghost t: string, pos: nat, n: nat,
                     blockSize: nat, cancelAt: Option<nat>, filePath: string, pattern: string,
                     ghost base: seq<Entry>, ghost baseCount: nat)
      returns (que': string, n': nat, pos': nat, ghost t': string)
      requires blockSize > 0 && n <= pos < |text| && n <= CancelBound(cancelAt, |text|) && t == text[..n]
      requires n < pos ==> CancelSeen(cancelAt, n) || maxEntryListSize <= entryCount
      requires !(CancelSeen(cancelAt, n) || maxEntryListSize <= entryCount)
      requires Scanning(a, que, t, filePath, pattern, base, baseCount)
      requires NoBreak(pattern, env.chars) && entryCount <= maxEntryListSize
      modifies a, this`entryCount, this`result
      ensures pos < pos' && n' <= pos' <= |text| && n' <= CancelBound(cancelAt, |text|) && t' == text[..n']
      ensures n' < pos' ==> CancelSeen(cancelAt, n') || maxEntryListSize <= entryCount
      ensures Scanning(a, que', t', filePath, pattern, base, baseCount)
      ensures result.first == old(result.first) && entryCount <= maxEntryListSize
    {
      pos' := Min(pos + blockSize, |text|);
      que', n', t' := ScanBlock(a, que, text, t, pos, pos', cancelAt, filePath, pattern, base, baseCount);
    }

    /**
     * Reads `text` in blocks of `blockSize` characters, checking the cancel
     * flag and the cap before each block, until the text is used up. It
     * stops after `n` characters: the bound the flag sets, or where the cap
     * is reached. Nothing in the outcome depends on `blockSize`.
     */
    method ScanBlocks(a: Automaton, text: string, blockSize: nat, cancelAt: Option<nat>, filePath: string,
                      pattern: string, ghost base: seq<Entry>, ghost baseCount: nat)
      returns (n: nat, que: string, ghost t: string)
      requires blockSize > 0
      requires Scanning(a, [], [], filePath, pattern, base, baseCount)
      requires NoBreak(pattern, env.chars) && entryCount <= maxEntryListSize
      modifies a, this`entryCount, this`result
      ensures n <= CancelBound(cancelAt, |text|) && t == text[..n]
      ensures n == CancelBound(cancelAt, |text|) || maxEntryListSize <= entryCount
      ensures Scanning(a, que, t, filePath, pattern, base, baseCount)
      ensures result.first == old(result.first) && entryCount <= maxEntryListSize
    {
      que := [];
      t := [];
      var pos: nat := 0;
      n := 0;
      while pos < |text| && !(CancelSeen(cancelAt, n) || maxEntryListSize <= entryCount)
        invariant n <= pos <= |text| && n <= CancelBound(cancelAt, |text|) && t == text[..n]
        invariant n < pos ==> CancelSeen(cancelAt, n) || maxEntryListSize <= entryCount
        invariant Scanning(a, que, t, filePath, pattern, base, baseCount)
        invariant result.first == old(result.first) && entryCount <= maxEntryListSize
        decreases |text| - pos
      {
        que, n, pos, t := NextBlock(a, que, text, t, pos, n, blockSize, cancelAt, filePath, pattern, base, baseCount);
      }
      if entryCount < maxEntryListSize {
        BoundReached(cancelAt, |text|, n);
      }
    }

    /** A fresh automaton for `pattern` and an empty window: the state of a scan before its first character. */
    method StartScan(filePath: string, pattern: string) returns (a: Automaton)
      ensures fresh(a)
      ensures Scanning(a, [], [], filePath, pattern, result.list, entryCount)
    {
      a := new Automaton.FromString(pattern);
      assert Run(pattern, []) == 0;
      assert TrimmedWindow([], pattern, env.chars) == [];
      assert Entries(filePath, [], pattern, env.chars) == [];
      assert result.list + [] == result.list;
    }

    /**
     * Scans `text` for `pattern` with a fresh automaton and an empty window.
     * The flag is raised once `cancelAt`'s count of characters has been
     * processed, so the scan appends the entries of the text up to that
     * point, as many as the cap still allows.
     */
    method ScanText(filePath: string, text: string, pattern: string, cancelAt: Option<nat>)
      requires entryCount <= maxEntryListSize && NoBreak(pattern, env.chars)
      modifies this`entryCount, this`result
      ensures entryCount <= maxEntryListSize
      ensures var out := Take(Entries(filePath, text[..CancelBound(cancelAt, |text|)], pattern, env.chars),
                              maxEntryListSize - old(entryCount));
        result == old(result).(list := old(result.list) + out) && entryCount == old(entryCount) + |out|
    {
      ghost var budget: nat := maxEntryListSize - entryCount;
      ghost var base := result.list;
      ghost var baseCount := entryCount;
      var a := StartScan(filePath, pattern);
      var n, _, t := ScanBlocks(a, text, ReadingBlockSize, cancelAt, filePath, pattern, base, baseCount);
      ghost var es := Entries(filePath, text[..n], pattern, env.chars);
      assert result.list == base + es && entryCount == baseCount + |es|;
      StopIsTake(filePath, text, n, CancelBound(cancelAt, |text|), pattern, env.chars, budget);
    }

    /**
     * Scans one file for `pattern`. A file that fails to open is skipped. A
     * file that opens and whose flag stays lowered counts as scanned, and
     * reaching the cap then reports "too many matches".
     */
    method Scan(filePath: string, pattern: string, cancelAt: Option<nat>)
      requires entryCount <= maxEntryListSize
      requires NoBreak(pattern, env.chars)
      modifies this`entryCount, this`result, this`scannedCount, this`scannedSize, this`statusCode
      ensures entryCount <= maxEntryListSize
      ensures var out := ScanOutput(env, filePath, pattern, cancelAt, maxEntryListSize - old(entryCount));
        result == old(result).(list := old(result.list) + out) && entryCount == old(entryCount) + |out|
      ensures ScanCompleted(env, filePath, cancelAt) ==>
        scannedCount == old(scannedCount) + 1 && scannedSize == old(scannedSize) + env.size(filePath) &&
        statusCode == if maxEntryListSize <= entryCount then 4 else old(statusCode)
      ensures !ScanCompleted(env, filePath, cancelAt) ==>
        scannedCount == old(scannedCount) && scannedSize == old(scannedSize) && statusCode == old(statusCode)
    {
      var content := env.content(filePath);
      if content.None? {
        assert old(result.list) + [] == old(result.list);
        return;
      }
      ScanText(filePath, content.value, pattern, cancelAt);
      if cancelAt.Some? {
        return;
      }
      scannedCount := scannedCount + 1;
      scannedSize := scannedSize + env.size(filePath);
      if maxEntryListSize <= entryCount {
        statusCode := 4;
      }
    }

    /** Takes a top, that is a smallest, file off the queue. */
    method PopTop() returns (filePath: string)
      requires Valid() && fileQueue != []
      modifies this`fileQueue
      ensures IsTop(old(fileQueue), env.size, filePath)
      ensures multiset(fileQueue) == multiset(old(fileQueue)) - multiset{filePath}
      ensures |fileQueue| == |old(fileQueue)| - 1
      ensures SizesOf(old(fileQueue), env.size) == env.size(filePath) + SizesOf(fileQueue, env.size)
    {
      TopExists(fileQueue, env.size);
      var k :| 0 <= k < |fileQueue| && IsTop(fileQueue, env.size, fileQueue[k]);
      filePath := fileQueue[k];
      SizesOfRemove(fileQueue, env.size, k);
      RemoveAtContents(fileQueue, k);
      fileQueue := RemoveAt(fileQueue, k);
    }

    /** Under the queue lock: worker `i` takes a smallest queued file and lowers its flag. */
    method TakeWork(i: nat) returns (filePath: string)
      requires Valid() && i < ScanThreadsCount && fileQueue != []
      modifies this`fileQueue, scanCancel
      ensures IsTop(old(fileQueue), env.size, filePath)
      ensures multiset(fileQueue) == multiset(old(fileQueue)) - multiset{filePath}
      ensures |fileQueue| == |old(fileQueue)| - 1
      ensures SizesOf(old(fileQueue), env.size) == env.size(filePath) + SizesOf(fileQueue, env.size)
      ensures scanCancel[..] == old(scanCancel[..])[i := false]
    {
      filePath := PopTop();
      scanCancel[i] := false;
    }

    /**
     * Scans a file just taken off the queue for the queued pattern: the state
     * is valid again once the scan has been counted.
     */
    method ScanPopped(filePath: string, cancelAt: Option<nat>)
      requires ResultValid() && scanCancel.Length == ScanThreadsCount && 0 <= statusCode <= 4
      requires scannedCount + |fileQueue| + 1 <= totalCount
      requires scannedSize + SizesOf(fileQueue, env.size) + env.size(filePath) <= totalSize
      requires NoBreak(queuedPattern, env.chars)
      modifies this`entryCount, this`result, this`scannedCount, this`scannedSize, this`statusCode
      ensures Valid()
      ensures var out := ScanOutput(env, filePath, queuedPattern, cancelAt, maxEntryListSize - old(entryCount));
        result == old(result).(list := old(result.list) + out) && entryCount == old(entryCount) + |out|
      ensures ScanCompleted(env, filePath, cancelAt) ==>
        scannedCount == old(scannedCount) + 1 && scannedSize == old(scannedSize) + env.size(filePath) &&
        statusCode == if maxEntryListSize <= entryCount then 4 else old(statusCode)
      ensures !ScanCompleted(env, filePath, cancelAt) ==>
        scannedCount == old(scannedCount) && scannedSize == old(scannedSize) && statusCode == old(statusCode)
    {
      ghost var list0 := result.list;
      ghost var out := ScanOutput(env, filePath, queuedPattern, cancelAt, maxEntryListSize - entryCount);
      ScanOutputFields(env, filePath, queuedPattern, cancelAt, maxEntryListSize - entryCount);
      Scan(filePath, queuedPattern, cancelAt);
      assert forall k :: 0 <= k < |result.list| ==> result.list[k] == if k < |list0| then list0[k] else out[k - |list0|];
    }

    /** Once the crawl is done and every counted file is scanned, the search is finished. */
    method ReportIfFinished()
      requires Valid()
      modifies this`statusCode
      ensures Valid()
      ensures statusCode == if crawlFinished && scannedCount == totalCount then 2 else old(statusCode)
    {
      if crawlFinished && scannedCount == totalCount {
        statusCode := 2;
      }
    }

    /**
     * One iteration of worker `i`: take a smallest queued file, lower the
     * worker's flag, scan the file for the queued pattern, and report the
     * search finished once the crawl is done and every counted file is
     * scanned. `cancelAt` says when a concurrent stop or restart raises the
     * flag during the scan.
     */
    method WorkerStep(i: nat, cancelAt: Option<nat>) returns (filePath: string)
      requires Valid() && i < ScanThreadsCount && fileQueue != []
      requires NoBreak(queuedPattern, env.chars)
      modifies this`fileQueue, scanCancel, this`entryCount, this`result, this`scannedCount, this`scannedSize, this`statusCode
      ensures Valid()
      ensures IsTop(old(fileQueue), env.size, filePath)
      ensures multiset(fileQueue) == multiset(old(fileQueue)) - multiset{filePath}
      ensures scanCancel[..] == old(scanCancel[..])[i := cancelAt.Some?]
      ensures var out := ScanOutput(env, filePath, queuedPattern, cancelAt, maxEntryListSize - old(entryCount));
        result == old(result).(list := old(result.list) + out) && entryCount == old(entryCount) + |out|
      ensures ScanCompleted(env, filePath, cancelAt) ==>
        scannedCount == old(scannedCount) + 1 && scannedSize == old(scannedSize) + env.size(filePath)
      ensures !ScanCompleted(env, filePath, cancelAt) ==>
        scannedCount == old(scannedCount) && scannedSize == old(scannedSize)
      ensures statusCode ==
        if crawlFinished && scannedCount == totalCount then 2
        else if ScanCompleted(env, filePath, cancelAt) && maxEntryListSize <= entryCount then 4
        else old(statusCode)
    {
      filePath := TakeWork(i);
      ScanPopped(filePath, cancelAt);
      // A flag raised during the scan stays raised.
      scanCancel[i] := cancelAt.Some?;
      ReportIfFinished();
    }

    /**
     * Hands the buffered entries to the caller and leaves an empty buffer
     * that is no longer marked first. When the buffer is `contended` the
     * caller gets an empty, non-first list and the buffer is kept.
     */
    method GetResult(contended: bool) returns (r: EntryList)
      requires Valid()
      modifies this`result
      ensures Valid()
      ensures !contended ==> r == old(result) && result == EntryList(false, [])
      ensures contended ==> r == EntryList(false, []) && result == old(result)
    {
      if contended {
        return EntryList(false, []);
      }
      r := result;
      result := EntryList(false, []);
    }

    function GetStatus(): (r: int)
      reads this
      requires Valid()
      ensures 0 <= r <= 4
    {
      statusCode
    }

    /** The four counters; the scanned ones never exceed the totals. */
    function GetMetrics(): (m: Metrics)
      reads this
      requires Valid()
      ensures m.scannedCount <= m.totalCount && m.scannedSize <= m.totalSize
      ensures m == Metrics(scannedCount, scannedSize, totalCount, totalSize)
    {
      Metrics(scannedCount, scannedSize, totalCount, totalSize)
    }
  }
}
