/**
 * The scan backend's mutable state and its control operations
 * (services/pythonScriptTemplate.ts:18-26, 95-211): the `scan_state` dictionary, the rows
 * of `nas_files`, start_scan, stop_scan, and the body of the scan thread.
 *
 * Threads are not modelled. start_scan's thread launch (lines 196-198) is the caller
 * running BackgroundScanTask after a Started reply; a stop_scan arriving while the scan
 * runs is the oracle `stopBefore`: the position, among the files the walk yields, of the
 * first file before which the scan thread finds `status` no longer "scanning".
 */
module ScanServer {
  import opened Wrappers
  import opened Hasher
  import opened FileIndex
  import opened ScanTask

  datatype Status = Idle | Scanning | Stopped | Completed

  /** The `scan_state` dictionary. */
  datatype ScanState = ScanState(isScanning: bool, currentFile: string, processedCount: nat,
                                 totalSize: nat, startTime: Option<int>, status: Status)

  const INITIAL_STATE: ScanState := ScanState(false, "", 0, 0, None, Idle)

  /** The replies of start_scan: HTTP 200 with the path, 400 "Invalid path", 409 "already in progress". */
  datatype StartReply = Started(path: string) | InvalidPath | AlreadyRunning

  function HttpStatus(reply: StartReply): (code: nat)
    ensures code == 200 <==> reply.Started?
    ensures code == 400 <==> reply.InvalidPath?
    ensures code == 409 <==> reply.AlreadyRunning?
  {
    match reply
    case Started(_) => 200
    case InvalidPath => 400
    case AlreadyRunning => 409
  }

  /**
   * start_scan's decision from the request's `path` (None: missing), whether os.path.exists
   * holds for it, and `is_scanning`.
   */
  function StartDecision(path: Option<string>, pathExists: bool, isScanning: bool): (reply: StartReply)
    ensures reply.InvalidPath? <==> path.None? || path.value == "" || !pathExists
    ensures reply.AlreadyRunning? <==> !reply.InvalidPath? && isScanning
    ensures reply.Started? ==> path == Some(reply.path) && reply.path != ""
  {
    if path.None? || path.value == "" || !pathExists then InvalidPath
    else if isScanning then AlreadyRunning
    else Started(path.value)
  }

  /** Number of files the scan thread handles when the stop lands before file `stopBefore` of n. */
  function Reached(n: nat, stopBefore: Option<nat>): (k: nat)
    ensures k <= n
    ensures stopBefore.Some? && stopBefore.value <= n ==> k == stopBefore.value
    ensures stopBefore.None? || stopBefore.value >= n ==> k == n
  {
    if stopBefore.Some? && stopBefore.value < n then stopBefore.value else n
  }

  class Server {
    var state: ScanState
    /** The rows as the scan thread's own connection sees them, uncommitted upserts included. */
    var index: Table
    /** The rows committed to the database file, which every other connection reads. */
    var committed: Table

    /** Process start on an existing database `db`. */
    constructor(db: Table)
      ensures state == INITIAL_STATE && index == db && committed == db
    {
      state := INITIAL_STATE;
      index := db;
      committed := db;
    }

    /** stop_scan: unconditionally marks the scan stopped, even when none runs. */
    method StopScan()
      modifies this`state
      ensures state == old(state).(status := Stopped, isScanning := false)
    {
      state := state.(status := Stopped, isScanning := false);
    }

    /** start_scan up to the thread launch: validate the path, then claim the single scan slot. */
    method StartScan(path: Option<string>, pathExists: bool) returns (reply: StartReply)
      modifies this`state
      ensures reply == StartDecision(path, pathExists, old(state.isScanning))
      ensures state == if reply.Started? then old(state).(isScanning := true) else old(state)
    {
      if path.None? || path.value == "" || !pathExists {
        return InvalidPath;
      }
      if state.isScanning {
        return AlreadyRunning;
      }
      state := state.(isScanning := true);
      reply := Started(path.value);
    }

    /**
     * The body of the inner loop for one file at `path`: stat, the resumable check, the hash,
     * the upsert with the counters, and the batch commit. A stat failure (Python's
     * exception) leaves everything but current_file as it was.
     */
    method HandleFile(path: string, f: WalkFile, now: int, pending: nat, ghost hashed: nat, md5: seq<byte> -> string)
      returns (pending': nat, ghost hashed': nat)
      modifies this`state, this`index, this`committed
      ensures Progress(index, committed, pending', state.processedCount, state.totalSize, state.currentFile, hashed')
              == ProcessEntry(Progress(old(index), old(committed), pending, old(state.processedCount), old(state.totalSize),
                                       old(state.currentFile), hashed), Entry(path, f), now, md5)
      ensures state.startTime == old(state.startTime) && state.status == old(state.status)
      ensures state.isScanning == old(state.isScanning)
    {
      ghost var p := Progress(index, committed, pending, state.processedCount, state.totalSize, state.currentFile, hashed);
      pending', hashed' := pending, hashed;
      state := state.(currentFile := path);
      if f.stat.Some? {
        var st := f.stat.value;
        var row := Lookup(index, path);
        var md5Val: Option<string>;
        if row.Some? && row.value.mtime == st.mtime && row.value.size == st.size {
          md5Val := Some(row.value.md5);  // skip calculation
        } else {
          md5Val := CalculateMd5(f.source, md5);
          hashed' := hashed' + 1;
        }
        assert md5Val == DigestFor(p.index, path, st, f.source, md5);
        if md5Val.Some? && md5Val.value != "" {
          index := Upsert(index, path, f.name, Suffix(f.name), st.size, st.mtime, md5Val.value, now);
          pending' := pending' + 1;
          state := state.(processedCount := state.processedCount + 1, totalSize := state.totalSize + st.size);
        }
        if pending' >= BATCH_SIZE {
          committed := index;
          pending' := 0;
        }
      }
    }

    /**
     * The inner loop (lines 114-158) over the files of one directory, entered with k0 files
     * of the walk already handled: before each file the stop check, then HandleFile.
     */
    method ScanDirectory(dir: WalkDir, stopBefore: Option<nat>, k0: nat, pending0: nat,
                         ghost es: seq<Entry>, ghost start: Progress, ghost hashed0: nat,
                         clock: nat -> int, md5: seq<byte> -> string)
      returns (k: nat, pending: nat, ghost hashed: nat)
      requires k0 + |dir.files| <= |es| && es[k0..k0 + |dir.files|] == DirEntries(dir)
      requires Progress(index, committed, pending0, state.processedCount, state.totalSize, state.currentFile, hashed0) == ProcessAll(start, es[..k0], clock, md5)
      requires state.status == Scanning && (stopBefore.None? || k0 <= stopBefore.value)
      modifies this
      ensures k0 <= k <= k0 + |dir.files|
      ensures Progress(index, committed, pending, state.processedCount, state.totalSize, state.currentFile, hashed) == ProcessAll(start, es[..k], clock, md5)
      ensures state.startTime == old(state.startTime)
      ensures state.status == Scanning || state.status == Stopped
      ensures state.status == Scanning ==> k == k0 + |dir.files| && (stopBefore.None? || k <= stopBefore.value)
      ensures state.status == Stopped ==> stopBefore == Some(k)
      ensures state.status == Scanning ==> state.isScanning == old(state.isScanning)
      ensures state.status == Stopped ==> !state.isScanning
    {
      var files := dir.files;
      k, pending, hashed := k0, pending0, hashed0;
      var j := 0;
      while j < |files|
        invariant j <= |files|
        invariant k == k0 + j
        invariant Progress(index, committed, pending, state.processedCount, state.totalSize, state.currentFile, hashed) == ProcessAll(start, es[..k], clock, md5)
        invariant state.startTime == old(state.startTime)
        invariant state.status == Scanning || state.status == Stopped
        invariant state.status == Scanning ==> stopBefore.None? || k <= stopBefore.value
        invariant state.status == Stopped ==> stopBefore == Some(k)
        invariant state.status == Scanning ==> state.isScanning == old(state.isScanning)
        invariant state.status == Stopped ==> !state.isScanning
      {
        if stopBefore == Some(k) {
          StopScan();
        }
        if state.status != Scanning {
          break;
        }
        assert stopBefore.None? || k < stopBefore.value;
        var path := JoinPath(dir.root, files[j].name);
        NextEntry(start, es, dir, k0, j, clock, md5);
        pending, hashed := HandleFile(path, files[j], clock(k), pending, hashed, md5);
        k := k + 1;
        j := j + 1;
      }
    }

    /**
     * background_scan_task over the walk `walk`: `startTime` is time.time() at its start,
     * `clock(k)` is datetime.now() at the upsert of the k-th file, `md5` the digest function.
     * `hashed` counts the calls of calculate_md5. Whether or not it was stopped, the scan
     * ends "completed", after a final commit.
     */
    method BackgroundScanTask(walk: seq<WalkDir>, stopBefore: Option<nat>, startTime: int,
                              clock: nat -> int, md5: seq<byte> -> string) returns (ghost hashed: nat)
      modifies this
      ensures var es := Entries(walk);
              var start := StartProgress(old(committed), old(state.currentFile));
              var r := ProcessAll(start, es[..Reached(|es|, stopBefore)], clock, md5);
              && index == r.index && committed == r.index
              && state == ScanState(false, r.currentFile, r.processed, r.totalSize, Some(startTime), Completed)
              && hashed == r.hashCalls
    {
      ghost var es := Entries(walk);
      ghost var start := StartProgress(committed, state.currentFile);
      index := committed;  // the scan thread's own connection
      state := state.(status := Scanning, startTime := Some(startTime), processedCount := 0, totalSize := 0);
      var pending: nat := 0;
      var k: nat := 0;  // files reached so far, the position the stop oracle refers to
      hashed := 0;
      var d := 0;
      assert es[..0] == [];
      while d < |walk|
        invariant d <= |walk|
        invariant k <= |es|
        invariant Progress(index, committed, pending, state.processedCount, state.totalSize, state.currentFile, hashed) == ProcessAll(start, es[..k], clock, md5)
        invariant state.startTime == Some(startTime)
        invariant state.status == Scanning || state.status == Stopped
        invariant state.status == Scanning ==> k == |Entries(walk[..d])| && (stopBefore.None? || k <= stopBefore.value)
        invariant state.status == Stopped ==> stopBefore == Some(k) && k <= |Entries(walk[..d])|
        decreases |walk| - d
      {
        if stopBefore == Some(k) {
          StopScan();
        }
        if state.status != Scanning {
          break;
        }
        assert stopBefore.None? || k < stopBefore.value;
        DirectorySlice(walk, d);
        k, pending, hashed := ScanDirectory(walk[d], stopBefore, k, pending, es, start, hashed, clock, md5);
        d := d + 1;
      }
      EntriesPrefix(walk, d);
      assert k == Reached(|es|, stopBefore) by {
        if state.status == Scanning {
          assert walk[..d] == walk;
        }
      }
      committed := index;  // conn.commit()
      state := state.(status := Completed, isScanning := false);
    }
  }
}
