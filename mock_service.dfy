/**
 * The front end's stand-ins for the backend (services/mockService.ts): the generator of
 * fake scan records, the demo login check, and the simulated scanner with its stop flag.
 *
 * Every `Math.random()` outcome of one record is an input (`Draw`); the `setTimeout`
 * delays are the points where another task may call stop(), given as the oracle
 * `stopDuring`.
 */
module MockService {
  import opened Wrappers
  import opened Text
  import opened Types
  import FileIndex

  /** The extensions generateMockFiles draws from, without their dot. */
  const FILE_TYPES: seq<string> := ["jpg", "png", "mp4", "mkv", "docx", "pdf", "iso"]

  /** `Math.floor(Math.random() * 1024 * 1024 * 500)` stays below 500 MiB. */
  const MOCK_SIZE_BOUND: nat := 1024 * 1024 * 500

  /** `Math.floor(Math.random() * types.length)`. */
  type TypeIndex = k: nat | k < 7

  type MockSize = n: nat | n < 1024 * 1024 * 500

  /**
   * The random outcomes behind one record: the type index, the base-36 name token, the
   * size, the md5 text, the `new Date().toISOString()` text and whether `Math.random() > 0.8`.
   */
  datatype Draw = Draw(typeIndex: TypeIndex, token: string, size: MockSize, md5: string,
                       scannedAt: string, skipped: bool)

  /** Record i of generateMockFiles under base path `basePath` and draws d. */
  function MockRecord(i: nat, basePath: string, d: Draw): FileRecord
  {
    var ext := FILE_TYPES[d.typeIndex];
    var name := "file_backup_" + NatToString(i) + "_" + d.token + "." + ext;
    FileRecord("file-" + NatToString(i), name, basePath + "/" + name, "." + ext, d.size, d.md5,
               d.scannedAt, if d.skipped then Skipped else Scanned)
  }

  /**
   * generateMockFiles(count, basePath): `count` records in index order, `draws(i)` being
   * the random outcomes of record i.
   */
  method GenerateMockFiles(count: nat, basePath: string, draws: nat -> Draw) returns (files: seq<FileRecord>)
    ensures |files| == count
    ensures forall i :: 0 <= i < count ==> files[i] == MockRecord(i, basePath, draws(i))
  {
    files := [];
    var i := 0;
    while i < count
      invariant i <= count && |files| == i
      invariant forall k :: 0 <= k < i ==> files[k] == MockRecord(k, basePath, draws(k))
    {
      var d := draws(i);
      var ext := FILE_TYPES[d.typeIndex];
      var name := "file_backup_" + NatToString(i) + "_" + d.token + "." + ext;
      files := files + [FileRecord("file-" + NatToString(i), name, basePath + "/" + name, "." + ext, d.size,
                                   d.md5, d.scannedAt, if d.skipped then Skipped else Scanned)];
      i := i + 1;
    }
  }

  /**
   * What every generated record looks like: its id is "file-" followed by its index in
   * decimal, its path is the base path, '/', and its file name, its extension is a dot and
   * one of FILE_TYPES and ends the file name, its status is never "failed" and its size is
   * below 500 MiB.
   */
  lemma MockRecordShape(i: nat, basePath: string, d: Draw)
    ensures var r := MockRecord(i, basePath, d);
            && |r.id| > 5 && r.id[..5] == "file-" && (forall k :: 5 <= k < |r.id| ==> IsDigit(r.id[k]))
            && ParseNat(r.id[5..]) == i
            && r.path == basePath + "/" + r.filename
            && |r.extension| >= 2 && r.extension[0] == '.' && r.extension[1..] in FILE_TYPES
            && |r.extension| < |r.filename| && r.filename[|r.filename| - |r.extension|..] == r.extension
            && r.status != Failed
            && r.size < MOCK_SIZE_BOUND
  {
    var r := MockRecord(i, basePath, d);
    assert r.id[5..] == NatToString(i);
    ParseNatToString(i);
    var ext := FILE_TYPES[d.typeIndex];
    assert r.filename == ("file_backup_" + NatToString(i) + "_" + d.token) + r.extension;
  }

  /** Two records of one run never share an id, a file name or a path. */
  lemma MockRecordsDistinct(i: nat, j: nat, basePath: string, di: Draw, dj: Draw)
    requires i != j
    ensures MockRecord(i, basePath, di).id != MockRecord(j, basePath, dj).id
    ensures MockRecord(i, basePath, di).filename != MockRecord(j, basePath, dj).filename
    ensures MockRecord(i, basePath, di).path != MockRecord(j, basePath, dj).path
  {
    var ri, rj := MockRecord(i, basePath, di), MockRecord(j, basePath, dj);
    NatToStringInjective(i, j);
    assert ri.id[5..] == NatToString(i) && rj.id[5..] == NatToString(j);
    NameIndexUnique(i, j, di.token, dj.token, FILE_TYPES[di.typeIndex], FILE_TYPES[dj.typeIndex]);
    assert ri.path[|basePath| + 1..] == ri.filename && rj.path[|basePath| + 1..] == rj.filename;
  }

  /**
   * The index written after "file_backup_" is read back up to the next '_': two names with
   * different indices differ whatever their tokens and extensions.
   */
  lemma NameIndexUnique(i: nat, j: nat, ti: string, tj: string, ei: string, ej: string)
    requires i != j
    ensures "file_backup_" + NatToString(i) + "_" + ti + "." + ei != "file_backup_" + NatToString(j) + "_" + tj + "." + ej
  {
    var a, b := NatToString(i), NatToString(j);
    var si := "file_backup_" + a + "_" + ti + "." + ei;
    var sj := "file_backup_" + b + "_" + tj + "." + ej;
    if |a| < |b| {
      assert si[12 + |a|] == '_' && sj[12 + |a|] == b[|a|];
    } else if |b| < |a| {
      assert sj[12 + |b|] == '_' && si[12 + |b|] == a[|b|];
    } else {
      NatToStringInjective(i, j);
      assert ("file_backup_" + a)[12..] == a && ("file_backup_" + b)[12..] == b;
      assert si[..12 + |a|] == "file_backup_" + a && sj[..12 + |b|] == "file_backup_" + b;
    }
  }

  /** The characters of `Math.random().toString(36)` after its "0.": base-36 digits. */
  predicate Base36(token: string) {
    forall k :: 0 <= k < |token| ==> '0' <= token[k] <= '9' || 'a' <= token[k] <= 'z'
  }

  /**
   * The extension a generated record carries is the one the backend would store for its
   * name: Path(filename).suffix, since the base-36 token holds no dot.
   */
  lemma MockExtensionIsSuffix(i: nat, basePath: string, d: Draw)
    requires Base36(d.token)
    ensures var r := MockRecord(i, basePath, d); FileIndex.Suffix(r.filename) == r.extension
  {
    var r := MockRecord(i, basePath, d);
    var ext := FILE_TYPES[d.typeIndex];
    var stem := "file_backup_" + NatToString(i) + "_" + d.token;
    assert r.filename == stem + "." + ext;
    assert '.' !in ext;
    var dot := FileIndex.LastDot(r.filename);
    assert r.filename[|stem|] == '.';
    forall k | |stem| < k < |r.filename| ensures r.filename[k] != '.' {
      assert r.filename[k] == ext[k - |stem| - 1];
    }
    assert dot == |stem|;
    assert r.filename[dot..] == "." + ext;
  }

  /** MockAuth.login: admin/admin, or else any non-empty user name, whatever the password. */
  function Login(username: string, password: string): (ok: bool)
    ensures username == "admin" && password == "admin" ==> ok
    ensures ok <==> |username| > 0
  {
    if username == "admin" && password == "admin" then true
    else |username| > 0
  }

  /** The password never changes the outcome of a login. */
  lemma LoginIgnoresPassword(username: string, p1: string, p2: string)
    ensures Login(username, p1) == Login(username, p2)
  {
  }

  /** The number of files scanDirectory pretends to find. */
  const TOTAL_FILES: nat := 200

  /** Whether stop() lands during one of the scan's 200 awaits. */
  predicate StopsDuringScan(stopDuring: Option<nat>) {
    stopDuring.Some? && stopDuring.value < TOTAL_FILES
  }

  /** How many onProgress calls a scan makes: up to and including the iteration whose await saw stop(). */
  function ProgressCalls(stopDuring: Option<nat>): (n: nat)
    ensures n <= TOTAL_FILES
    ensures StopsDuringScan(stopDuring) <==> n < TOTAL_FILES || stopDuring == Some(TOTAL_FILES - 1)
  {
    if StopsDuringScan(stopDuring) then stopDuring.value + 1 else TOTAL_FILES
  }

  class MockScanner {
    var stopSignal: bool

    constructor()
      ensures !stopSignal
    {
      stopSignal := false;
    }

    /** stop(): raise the flag, nothing else. */
    method Stop()
      modifies this
      ensures stopSignal
    {
      stopSignal := true;
    }

    /**
     * scanDirectory(path, onProgress): `reported` lists the records passed to onProgress, in
     * call order; `stopDuring` is the iteration during whose await another task calls stop().
     * The flag is only checked at the top of each iteration, so the record of that iteration
     * is still reported; a stop during the last await reports all 200 records and still
     * returns none.
     */
    method ScanDirectory(path: string, draws: nat -> Draw, stopDuring: Option<nat>)
      returns (reported: seq<FileRecord>, result: seq<FileRecord>)
      modifies this
      ensures |reported| == ProgressCalls(stopDuring)
      ensures forall i :: 0 <= i < |reported| ==> reported[i] == MockRecord(i, path, draws(i))
      ensures StopsDuringScan(stopDuring) ==> result == []
      ensures !StopsDuringScan(stopDuring) ==>
                |result| == TOTAL_FILES && forall i :: 0 <= i < TOTAL_FILES ==> result[i] == MockRecord(i, path, draws(i))
      ensures stopSignal == StopsDuringScan(stopDuring)
    {
      stopSignal := false;
      var totalFiles := TOTAL_FILES;
      var results := GenerateMockFiles(totalFiles, path, draws);
      reported := [];
      var i := 0;
      while i < totalFiles
        invariant i <= totalFiles
        invariant reported == results[..i]
        invariant stopSignal <==> stopDuring.Some? && stopDuring.value < i
        invariant stopSignal ==> i == stopDuring.value + 1
      {
        if stopSignal {
          break;
        }
        // the await: the moment another task may run stop()
        if stopDuring == Some(i) {
          Stop();
        }
        reported := reported + [results[i]];
        i := i + 1;
      }
      result := if stopSignal then [] else results;
    }
  }
}
