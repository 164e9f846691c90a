/**
 * What one run of background_scan_task (services/pythonScriptTemplate.ts:95-165) does to
 * the index and the progress counters, as functions of the walk: the per-file step
 * (stat, change check, hash, upsert, counters, batched commit) and its fold over the
 * files the walk yields. The imperative scan thread body in ScanServer is proved to end in the
 * state these functions give; the lemmas here state what that state satisfies.
 */
module ScanTask {
  import opened Wrappers
  import opened Hasher
  import opened FileIndex

  const BATCH_SIZE: nat := 50

  /** The two `stat` fields the scan uses; `mtime` is an opaque timestamp. */
  datatype StatInfo = StatInfo(size: nat, mtime: int)

  /** A name os.walk lists in a directory, what `Path.stat()` gives for it (None: it raised) and its bytes. */
  datatype WalkFile = WalkFile(name: string, stat: Option<StatInfo>, source: FileSource)

  /** One `(root, dirs, files)` triple of os.walk, in walk order; `dirs` does not matter to the scan. */
  datatype WalkDir = WalkDir(root: string, files: seq<WalkFile>)

  /** A file reached by the walk, with its joined path. */
  datatype Entry = Entry(path: string, file: WalkFile)

  /** `os.path.join(root, name)` for one name. */
  function JoinPath(root: string, name: string): (p: string)
    ensures |name| > 0 && name[0] == '/' ==> p == name
    ensures !(|name| > 0 && name[0] == '/') ==> |p| >= |root| + |name| && p[..|root|] == root && p[|p| - |name|..] == name
  {
    if |name| > 0 && name[0] == '/' then name
    else if root == "" || root[|root| - 1] == '/' then root + name
    else root + "/" + name
  }

  function DirEntries(d: WalkDir): (es: seq<Entry>)
    ensures |es| == |d.files|
    ensures forall j :: 0 <= j < |es| ==> es[j] == Entry(JoinPath(d.root, d.files[j].name), d.files[j])
  {
    seq(|d.files|, j requires 0 <= j < |d.files| => Entry(JoinPath(d.root, d.files[j].name), d.files[j]))
  }

  /** The files of the walk in the order the nested loops reach them. */
  function Entries(walk: seq<WalkDir>): seq<Entry>
    decreases |walk|
  {
    if walk == [] then [] else Entries(walk[..|walk| - 1]) + DirEntries(walk[|walk| - 1])
  }

  /** The files of the first d directories come first in the walk's files. */
  lemma {:induction false} EntriesPrefix(walk: seq<WalkDir>, d: nat)
    requires d <= |walk|
    ensures |Entries(walk[..d])| <= |Entries(walk)|
    ensures Entries(walk[..d]) == Entries(walk)[..|Entries(walk[..d])|]
    decreases |walk|
  {
    if d < |walk| {
      assert walk[..|walk| - 1][..d] == walk[..d];
      EntriesPrefix(walk[..|walk| - 1], d);
    } else {
      assert walk[..d] == walk;
    }
  }

  /** The files of directory d sit in the walk's files right after those of the first d directories. */
  lemma DirectorySlice(walk: seq<WalkDir>, d: nat)
    requires d < |walk|
    ensures |Entries(walk[..d])| + |walk[d].files| == |Entries(walk[..d + 1])| <= |Entries(walk)|
    ensures Entries(walk)[|Entries(walk[..d])|..|Entries(walk[..d + 1])|] == DirEntries(walk[d])
  {
    assert walk[..d + 1][..d] == walk[..d];
    assert Entries(walk[..d + 1]) == Entries(walk[..d]) + DirEntries(walk[d]);
    EntriesPrefix(walk, d + 1);
  }

  /**
   * The scan thread's view of its run: the connection's rows, the committed rows, `pending_commits`,
   * the `scan_state` counters, and the number of calculate_md5 calls so far (kept only to
   * state how much hashing a run does).
   */
  datatype Progress = Progress(index: Table, committed: Table, pending: nat,
                               processed: nat, totalSize: nat, currentFile: string, hashCalls: nat)

  /** At the start of a scan: counters reset, nothing pending; current_file keeps its old value. */
  function StartProgress(t: Table, currentFile: string): (p: Progress)
    ensures p.processed == 0 && p.totalSize == 0 && p.pending == 0 && p.hashCalls == 0
    ensures p.index == t && p.committed == t && p.currentFile == currentFile
    ensures BatchInv(p)
  {
    var p := Progress(t, t, 0, 0, 0, currentFile, 0);
    assert Unflushed(p) == {};
    p
  }

  /** Python's `if md5_val:` on an optional hex digest. */
  predicate Truthy(v: Option<string>) {
    v.Some? && v.value != ""
  }

  function Lookup(t: Table, path: string): Option<Row>
  {
    if path in t then Some(t[path]) else None
  }

  /** The resumable check: a stored row with equal mtime and equal size. */
  predicate Unchanged(row: Option<Row>, st: StatInfo) {
    row.Some? && row.value.mtime == st.mtime && row.value.size == st.size
  }

  /** The digest the scan stores for a statted file: the stored one if unchanged, else a fresh hash. */
  function DigestFor(t: Table, path: string, st: StatInfo, source: FileSource,
                     md5: seq<byte> -> string): Option<string>
  {
    var row := Lookup(t, path);
    if Unchanged(row, st) then Some(row.value.md5) else Md5Of(source, md5)
  }

  /** Whether the file gets a row written (and counted) in this step. */
  predicate Written(t: Table, e: Entry, md5: seq<byte> -> string) {
    e.file.stat.Some? && Truthy(DigestFor(t, e.path, e.file.stat.value, e.file.source, md5))
  }

  /** Whether the step calls calculate_md5. */
  predicate Hashes(t: Table, e: Entry) {
    e.file.stat.Some? && !Unchanged(Lookup(t, e.path), e.file.stat.value)
  }

  /** The body of the inner loop for one file, `now` being datetime.now() at its upsert. */
  function ProcessEntry(p: Progress, e: Entry, now: int, md5: seq<byte> -> string): Progress
  {
    var p0 := p.(currentFile := e.path);
    match e.file.stat
    case None => p0
    case Some(st) =>
      var p1 := if Unchanged(Lookup(p.index, e.path), st) then p0 else p0.(hashCalls := p.hashCalls + 1);
      var v := DigestFor(p.index, e.path, st, e.file.source, md5);
      var p2 := if Truthy(v) then
                  p1.(index := Upsert(p.index, e.path, e.file.name, Suffix(e.file.name), st.size, st.mtime, v.value, now),
                      pending := p.pending + 1,
                      processed := p.processed + 1,
                      totalSize := p.totalSize + st.size)
                else p1;
      if p2.pending >= BATCH_SIZE then p2.(committed := p2.index, pending := 0) else p2
  }

  /**
   * One file's effect: current_file is its path; a written file adds 1 to processed_count and
   * its size to total_size and is upserted with its digest; a file whose stat raised or whose
   * digest is None/empty changes nothing else; pending_commits stays below BATCH_SIZE.
   */
  lemma ProcessEntryEffect(p: Progress, e: Entry, now: int, md5: seq<byte> -> string)
    ensures var r := ProcessEntry(p, e, now, md5);
            && r.currentFile == e.path
            && r.processed == (if Written(p.index, e, md5) then p.processed + 1 else p.processed)
            && r.totalSize == (if Written(p.index, e, md5) then p.totalSize + e.file.stat.value.size else p.totalSize)
            && (Written(p.index, e, md5) ==>
                  var st := e.file.stat.value;
                  r.index == Upsert(p.index, e.path, e.file.name, Suffix(e.file.name), st.size, st.mtime,
                                    DigestFor(p.index, e.path, st, e.file.source, md5).value, now))
            && (!Written(p.index, e, md5) && p.pending < BATCH_SIZE ==>
                  r.index == p.index && r.committed == p.committed && r.pending == p.pending)
            && (p.pending < BATCH_SIZE ==> r.pending < BATCH_SIZE)
            && (p.pending < BATCH_SIZE && Written(p.index, e, md5) ==>
                  && (p.pending + 1 < BATCH_SIZE ==> r.pending == p.pending + 1 && r.committed == p.committed)
                  && (p.pending + 1 == BATCH_SIZE ==> r.pending == 0 && r.committed == r.index))
            && r.hashCalls == if Hashes(p.index, e) then p.hashCalls + 1 else p.hashCalls
  {
  }

  /** The paths whose row on the scan thread's connection differs from the committed one. */
  ghost function Unflushed(p: Progress): set<string> {
    set q | q in p.index.Keys + p.committed.Keys && (q !in p.index || q !in p.committed || p.index[q] != p.committed[q])
  }

  /**
   * The batching invariant: fewer than BATCH_SIZE upserts await a commit, and the committed
   * rows differ from the connection's in at most that many paths.
   */
  ghost predicate BatchInv(p: Progress) {
    p.pending < BATCH_SIZE && |Unflushed(p)| <= p.pending
  }

  lemma {:induction false} SubsetCard(a: set<string>, b: set<string>)
    requires a <= b
    ensures |a| <= |b|
    decreases |b|
  {
    if a != {} {
      var x :| x in a;
      SubsetCard(a - {x}, b - {x});
    }
  }

  /** With nothing pending, the committed rows are exactly the connection's. */
  lemma NothingPendingIsFlushed(p: Progress)
    requires BatchInv(p) && p.pending == 0
    ensures p.committed == p.index
  {
    assert Unflushed(p) == {};
    forall q | q in p.index.Keys + p.committed.Keys ensures q in p.index && q in p.committed && p.index[q] == p.committed[q] {
      assert q !in Unflushed(p);
    }
  }

  lemma BatchInvStep(p: Progress, e: Entry, now: int, md5: seq<byte> -> string)
    requires BatchInv(p)
    ensures BatchInv(ProcessEntry(p, e, now, md5))
  {
    var r := ProcessEntry(p, e, now, md5);
    if Written(p.index, e, md5) && r.pending != 0 {
      var st := e.file.stat.value;
      var v := DigestFor(p.index, e.path, st, e.file.source, md5);
      assert r.committed == p.committed && r.pending == p.pending + 1;
      assert r.index == Upsert(p.index, e.path, e.file.name, Suffix(e.file.name), st.size, st.mtime, v.value, now);
      assert Unflushed(r) <= Unflushed(p) + {e.path};
      SubsetCard(Unflushed(r), Unflushed(p) + {e.path});
    } else if Written(p.index, e, md5) {
      assert r.committed == r.index;
      assert Unflushed(r) == {};
    } else {
      assert Unflushed(r) == Unflushed(p);
    }
  }

  /** The inner-loop body run over files es in order, `clock(k)` being the upsert time of the k-th. */
  function ProcessAll(p: Progress, es: seq<Entry>, clock: nat -> int, md5: seq<byte> -> string): Progress
    decreases |es|
  {
    if es == [] then p
    else ProcessEntry(ProcessAll(p, es[..|es| - 1], clock, md5), es[|es| - 1], clock(|es| - 1), md5)
  }

  /** The batching invariant holds after every file of a run. */
  lemma {:induction false} BatchInvAll(p: Progress, es: seq<Entry>, clock: nat -> int, md5: seq<byte> -> string)
    requires BatchInv(p)
    ensures BatchInv(ProcessAll(p, es, clock, md5))
    decreases |es|
  {
    if es != [] {
      BatchInvAll(p, es[..|es| - 1], clock, md5);
      BatchInvStep(ProcessAll(p, es[..|es| - 1], clock, md5), es[|es| - 1], clock(|es| - 1), md5);
    }
  }

  /**
   * The counters never decrease, and grow by at most one file and its size per file:
   * `processed_count` never exceeds the number of files reached.
   */
  lemma {:induction false} CountersGrow(p: Progress, es: seq<Entry>, clock: nat -> int, md5: seq<byte> -> string)
    ensures var r := ProcessAll(p, es, clock, md5);
            p.processed <= r.processed <= p.processed + |es| && p.totalSize <= r.totalSize
    decreases |es|
  {
    if es != [] {
      CountersGrow(p, es[..|es| - 1], clock, md5);
    }
  }

  /** Every stored md5 is a truthy digest. */
  ghost predicate DigestsPresent(t: Table) {
    forall q :: q in t ==> t[q].md5 != ""
  }

  /** Only truthy digests are ever written, so a table that starts with digests everywhere keeps them. */
  lemma {:induction false} DigestsStayPresent(p: Progress, es: seq<Entry>, clock: nat -> int, md5: seq<byte> -> string)
    requires DigestsPresent(p.index)
    ensures DigestsPresent(ProcessAll(p, es, clock, md5).index)
    decreases |es|
  {
    if es != [] {
      DigestsStayPresent(p, es[..|es| - 1], clock, md5);
    }
  }

  /** Rows of paths the run does not reach are left as they were. */
  lemma {:induction false} UnreachedRowsKept(p: Progress, es: seq<Entry>, clock: nat -> int, md5: seq<byte> -> string, q: string)
    requires forall i :: 0 <= i < |es| ==> es[i].path != q
    ensures Lookup(ProcessAll(p, es, clock, md5).index, q) == Lookup(p.index, q)
    decreases |es|
  {
    if es != [] {
      UnreachedRowsKept(p, es[..|es| - 1], clock, md5, q);
    }
  }

  ghost predicate DistinctPaths(es: seq<Entry>) {
    forall i, j :: 0 <= i < j < |es| ==> es[i].path != es[j].path
  }

  /** The stat the walk reports for a file is the one its stored row carries. */
  ghost predicate RowMatchesStat(t: Table, e: Entry)
    requires e.file.stat.Some?
  {
    e.path in t && t[e.path].size == e.file.stat.value.size && t[e.path].mtime == e.file.stat.value.mtime
  }

  /** Every file that can be hashed hashes to a truthy digest. */
  ghost predicate AllHashable(es: seq<Entry>, md5: seq<byte> -> string) {
    forall i :: 0 <= i < |es| && es[i].file.stat.Some? ==> Truthy(Md5Of(es[i].file.source, md5))
  }

  /** After a run over distinct, hashable files, each statted file's row records its stat. */
  lemma {:induction false} RunRecordsStats(p: Progress, es: seq<Entry>, clock: nat -> int, md5: seq<byte> -> string)
    requires DistinctPaths(es) && AllHashable(es, md5)
    ensures forall i :: 0 <= i < |es| && es[i].file.stat.Some? ==> RowMatchesStat(ProcessAll(p, es, clock, md5).index, es[i])
    decreases |es|
  {
    if es != [] {
      var init := es[..|es| - 1];
      var e := es[|es| - 1];
      var before := ProcessAll(p, init, clock, md5);
      RunRecordsStats(p, init, clock, md5);
      var after := ProcessAll(p, es, clock, md5);
      assert after == ProcessEntry(before, e, clock(|es| - 1), md5);
      forall i | 0 <= i < |es| && es[i].file.stat.Some? ensures RowMatchesStat(after.index, es[i]) {
        if i < |es| - 1 {
          assert init[i] == es[i];
          assert RowMatchesStat(before.index, es[i]);
          assert es[i].path != e.path;
        } else if !Unchanged(Lookup(before.index, e.path), e.file.stat.value) {
          assert Written(before.index, e, md5);
        }
      }
    }
  }

  /** The sizes the walk reports for the statted files of es. */
  function StatSizes(es: seq<Entry>): nat
    decreases |es|
  {
    if es == [] then 0
    else StatSizes(es[..|es| - 1]) + (match es[|es| - 1].file.stat case None => 0 case Some(st) => st.size)
  }

  /**
   * A run in which every file can be statted and hashed counts every file: processed_count
   * grows by the number of files and total_size by the sum of their sizes.
   */
  lemma {:induction false} HashableRunCountsAll(p: Progress, es: seq<Entry>, clock: nat -> int, md5: seq<byte> -> string)
    requires forall i :: 0 <= i < |es| ==> es[i].file.stat.Some?
    requires AllHashable(es, md5) && DigestsPresent(p.index)
    ensures ProcessAll(p, es, clock, md5).processed == p.processed + |es|
    ensures ProcessAll(p, es, clock, md5).totalSize == p.totalSize + StatSizes(es)
    decreases |es|
  {
    if es != [] {
      var init := es[..|es| - 1];
      var e := es[|es| - 1];
      HashableRunCountsAll(p, init, clock, md5);
      DigestsStayPresent(p, init, clock, md5);
      assert Written(ProcessAll(p, init, clock, md5).index, e, md5);
    }
  }

  /** A run over files whose rows all record their stat calls calculate_md5 on none of them. */
  lemma {:induction false} MatchingRowsNeedNoHash(p: Progress, es: seq<Entry>, clock: nat -> int, md5: seq<byte> -> string)
    requires DistinctPaths(es)
    requires forall i :: 0 <= i < |es| && es[i].file.stat.Some? ==> RowMatchesStat(p.index, es[i])
    ensures ProcessAll(p, es, clock, md5).hashCalls == p.hashCalls
    decreases |es|
  {
    if es != [] {
      var init := es[..|es| - 1];
      var e := es[|es| - 1];
      MatchingRowsNeedNoHash(p, init, clock, md5);
      UnreachedRowsKept(p, init, clock, md5, e.path);
    }
  }

  /** Two rows that differ at most in scanned_at. */
  predicate SameButScanTime(a: Row, b: Row) {
    a.filename == b.filename && a.extension == b.extension && a.size == b.size && a.mtime == b.mtime && a.md5 == b.md5
  }

  /**
   * A run over files whose rows all record their stat rewrites those rows with their own
   * digest: no path is added or dropped, and only scanned_at moves.
   */
  lemma {:induction false} MatchingRowsKeepRows(p: Progress, es: seq<Entry>, clock: nat -> int, md5: seq<byte> -> string)
    requires DigestsPresent(p.index)
    requires forall i :: 0 <= i < |es| && es[i].file.stat.Some? ==> RowMatchesStat(p.index, es[i])
    ensures var t := ProcessAll(p, es, clock, md5).index;
            t.Keys == p.index.Keys && forall q :: q in p.index ==> SameButScanTime(t[q], p.index[q])
    decreases |es|
  {
    if es != [] {
      var init := es[..|es| - 1];
      var e := es[|es| - 1];
      assert forall i :: 0 <= i < |init| ==> init[i] == es[i];
      MatchingRowsKeepRows(p, init, clock, md5);
      var before := ProcessAll(p, init, clock, md5);
      if e.file.stat.Some? {
        var st := e.file.stat.value;
        assert RowMatchesStat(p.index, e);
        assert Unchanged(Lookup(before.index, e.path), st);
        ProcessEntryEffect(before, e, clock(|es| - 1), md5);
        UpsertEffect(before.index, e.path, e.file.name, Suffix(e.file.name), st.size, st.mtime,
                     before.index[e.path].md5, clock(|es| - 1));
      }
    }
  }

  /**
   * Resumability: scanning the same files again straight after a run over them (its final
   * commit done, counters reset) calculates no hash at all, and keeps every path and every
   * stored digest, size and mtime.
   */
  lemma RescanHashesNothing(p: Progress, es: seq<Entry>, clock1: nat -> int, clock2: nat -> int,
                            md5: seq<byte> -> string, current: string)
    requires DistinctPaths(es) && AllHashable(es, md5) && DigestsPresent(p.index)
    ensures var first := ProcessAll(p, es, clock1, md5);
            var second := ProcessAll(StartProgress(first.index, current), es, clock2, md5);
            && second.hashCalls == 0
            && second.index.Keys == first.index.Keys
            && forall q :: q in first.index ==> SameButScanTime(second.index[q], first.index[q])
  {
    var first := ProcessAll(p, es, clock1, md5);
    RunRecordsStats(p, es, clock1, md5);
    DigestsStayPresent(p, es, clock1, md5);
    MatchingRowsNeedNoHash(StartProgress(first.index, current), es, clock2, md5);
    MatchingRowsKeepRows(StartProgress(first.index, current), es, clock2, md5);
  }

  /** Extending a run by the next file of es is one more ProcessEntry. */
  lemma ProcessAllStep(p: Progress, es: seq<Entry>, k: nat, clock: nat -> int, md5: seq<byte> -> string)
    requires k < |es|
    ensures ProcessAll(p, es[..k + 1], clock, md5) == ProcessEntry(ProcessAll(p, es[..k], clock, md5), es[k], clock(k), md5)
  {
    assert es[..k + 1][..k] == es[..k];
  }

  /** Inside the run of directory d's files, which starts at k0, the j-th step handles d's j-th file. */
  lemma NextEntry(p: Progress, es: seq<Entry>, d: WalkDir, k0: nat, j: nat, clock: nat -> int, md5: seq<byte> -> string)
    requires k0 + |d.files| <= |es| && es[k0..k0 + |d.files|] == DirEntries(d)
    requires j < |d.files|
    ensures var e := Entry(JoinPath(d.root, d.files[j].name), d.files[j]);
            && es[k0 + j] == e
            && ProcessAll(p, es[..k0 + j + 1], clock, md5) == ProcessEntry(ProcessAll(p, es[..k0 + j], clock, md5), e, clock(k0 + j), md5)
  {
    assert es[k0 + j] == es[k0..k0 + |d.files|][j];
    ProcessAllStep(p, es, k0 + j, clock, md5);
  }
}
