/**
 * The `nas_files` table (services/pythonScriptTemplate.ts:60-71) with its UNIQUE `path`
 * column, seen as a map from path to the rest of the row; the upsert the scan task
 * issues (lines 139-147); the `pathlib` name/suffix it stores; and the results query
 * (line 216).
 *
 * Timestamps (`mtime`, the ISO `scanned_at` text) are opaque integers compared for
 * equality and order only.
 */
module FileIndex {

  /** One `nas_files` row, without its key `path` and without the AUTOINCREMENT `id`. */
  datatype Row = Row(filename: string, extension: string, size: nat, mtime: int, md5: string, scannedAt: int)

  /** Uniqueness of `path` is the map's: a key has exactly one row. */
  type Table = map<string, Row>

  /**
   * INSERT ... ON CONFLICT(path) DO UPDATE SET size, mtime, md5, scanned_at: a new path gets
   * a full row; an existing one keeps its filename and extension and takes the rest.
   */
  function Upsert(t: Table, path: string, filename: string, extension: string,
                  size: nat, mtime: int, md5: string, scannedAt: int): Table
  {
    var row := if path in t then t[path].(size := size, mtime := mtime, md5 := md5, scannedAt := scannedAt)
               else Row(filename, extension, size, mtime, md5, scannedAt);
    t[path := row]
  }

  /** The upsert's effect on every path: only `path` changes, and only in the columns it sets. */
  lemma UpsertEffect(t: Table, path: string, filename: string, extension: string,
                     size: nat, mtime: int, md5: string, scannedAt: int)
    ensures var r := Upsert(t, path, filename, extension, size, mtime, md5, scannedAt);
            && r.Keys == t.Keys + {path}
            && (forall q :: q in t && q != path ==> r[q] == t[q])
            && r[path].size == size && r[path].mtime == mtime && r[path].md5 == md5 && r[path].scannedAt == scannedAt
            && (path in t ==> r[path].filename == t[path].filename && r[path].extension == t[path].extension)
            && (path !in t ==> r[path].filename == filename && r[path].extension == extension)
  {
  }

  /** Upserting the same values twice is the same as once. */
  lemma UpsertIdempotent(t: Table, path: string, filename: string, extension: string,
                         size: nat, mtime: int, md5: string, scannedAt: int)
    ensures var once := Upsert(t, path, filename, extension, size, mtime, md5, scannedAt);
            Upsert(once, path, filename, extension, size, mtime, md5, scannedAt) == once
  {
    var once := Upsert(t, path, filename, extension, size, mtime, md5, scannedAt);
    var twice := Upsert(once, path, filename, extension, size, mtime, md5, scannedAt);
    assert twice.Keys == once.Keys;
  }

  /** An upsert adds a row only for a path not yet present: rows are never duplicated. */
  lemma {:induction false} UpsertCount(t: Table, path: string, filename: string, extension: string,
                                       size: nat, mtime: int, md5: string, scannedAt: int)
    ensures |Upsert(t, path, filename, extension, size, mtime, md5, scannedAt)| == if path in t then |t| else |t| + 1
  {
    var r := Upsert(t, path, filename, extension, size, mtime, md5, scannedAt);
    if path in t {
      assert r.Keys == t.Keys;
    } else {
      assert r.Keys == t.Keys + {path};
      assert |r.Keys| == |t.Keys| + 1;
    }
  }

  /** Index of the last '.' in s, or -1 when there is none. */
  function LastDot(s: string): (i: int)
    ensures -1 <= i < |s|
    ensures i >= 0 ==> s[i] == '.'
    ensures forall j :: i < j < |s| ==> s[j] != '.'
    decreases |s|
  {
    if |s| == 0 then -1
    else if s[|s| - 1] == '.' then |s| - 1
    else LastDot(s[..|s| - 1])
  }

  /**
   * `Path(name).suffix`: from the last '.' to the end, provided that dot is neither the
   * first nor the last character; otherwise the empty string.
   */
  function Suffix(name: string): string
  {
    var i := LastDot(name);
    if 0 < i < |name| - 1 then name[i..] else ""
  }

  /**
   * A non-empty suffix is a dot, then at least one character and no further dot, ending the
   * name and shorter than it; the suffix is empty exactly when every dot strictly inside the
   * name (not first, not last) is followed by another dot later on.
   */
  lemma SuffixShape(name: string)
    ensures var r := Suffix(name);
            && (r == [] || (|r| >= 2 && r[0] == '.' && |r| < |name| && name[|name| - |r|..] == r))
            && (r != [] ==> '.' !in r[1..])
            && (r == [] <==> forall j :: 0 < j < |name| - 1 ==> name[j] != '.' || '.' in name[j + 1..])
  {
  }

  /** A result row of get_results: the path with the rest of its row. */
  datatype Listed = Listed(path: string, row: Row)

  const RESULTS_LIMIT: nat := 1000

  /** Every listed row is the table's row for its path, and no path is listed twice. */
  ghost predicate ListedFrom(t: Table, r: seq<Listed>) {
    && (forall i :: 0 <= i < |r| ==> r[i].path in t && t[r[i].path] == r[i].row)
    && (forall i, j :: 0 <= i < j < |r| ==> r[i].path != r[j].path)
  }

  ghost predicate NewestFirst(r: seq<Listed>) {
    forall i, j :: 0 <= i < j < |r| ==> r[i].row.scannedAt >= r[j].row.scannedAt
  }

  predicate IsNewest(t: Table, k: string)
    requires k in t
  {
    forall q :: q in t ==> t[q].scannedAt <= t[k].scannedAt
  }

  lemma {:induction false} NewestExists(t: Table)
    requires |t| > 0
    ensures exists k :: k in t && IsNewest(t, k)
    decreases |t|
  {
    var k0 :| k0 in t;
    var rest := t - {k0};
    assert rest.Keys == t.Keys - {k0};
    assert forall q :: q in t ==> q == k0 || q in rest;
    if |rest| == 0 {
      assert IsNewest(t, k0);
    } else {
      NewestExists(rest);
      var k1 :| k1 in rest && IsNewest(rest, k1);
      if t[k1].scannedAt >= t[k0].scannedAt {
        assert IsNewest(t, k1);
      } else {
        assert IsNewest(t, k0);
      }
    }
  }

  /** The set of paths listed in r. */
  function Paths(r: seq<Listed>): (ps: set<string>)
    ensures forall i :: 0 <= i < |r| ==> r[i].path in ps
    decreases |r|
  {
    if r == [] then {} else Paths(r[..|r| - 1]) + {r[|r| - 1].path}
  }

  /** What ListRecent keeps while it selects: r is a newest-first prefix of the answer, remaining is the rest. */
  ghost predicate SelectionInv(t: Table, r: seq<Listed>, remaining: Table) {
    && remaining == t - Paths(r)
    && Paths(r) <= t.Keys
    && |Paths(r)| == |r|
    && ListedFrom(t, r)
    && NewestFirst(r)
    && (forall q, i :: q in remaining && 0 <= i < |r| ==> remaining[q].scannedAt <= r[i].row.scannedAt)
  }

  lemma SelectionStep(t: Table, r: seq<Listed>, remaining: Table, k: string)
    requires SelectionInv(t, r, remaining)
    requires k in remaining && IsNewest(remaining, k)
    ensures SelectionInv(t, r + [Listed(k, remaining[k])], remaining - {k})
  {
    var r' := r + [Listed(k, remaining[k])];
    var rem' := remaining - {k};
    assert r'[..|r'| - 1] == r;
    assert Paths(r') == Paths(r) + {k};
    assert k !in Paths(r);
    assert |Paths(r')| == |r'|;
    assert rem' == t - Paths(r') by {
      assert rem'.Keys == (t - Paths(r')).Keys;
    }
    assert ListedFrom(t, r') by {
      forall i, j | 0 <= i < j < |r'| ensures r'[i].path != r'[j].path {
        if j == |r| { assert r[i].path in Paths(r); }
      }
    }
    assert NewestFirst(r') by {
      forall i, j | 0 <= i < j < |r'| ensures r'[i].row.scannedAt >= r'[j].row.scannedAt {
        if j == |r| { assert remaining[k].scannedAt <= r[i].row.scannedAt; }
      }
    }
  }

  lemma SelectionStart(t: Table)
    ensures SelectionInv(t, [], t)
  {
    assert t - Paths([]) == t;
  }

  lemma SelectionDone(t: Table, r: seq<Listed>, remaining: Table)
    requires SelectionInv(t, r, remaining)
    requires |r| <= RESULTS_LIMIT && (|r| == RESULTS_LIMIT || |remaining| == 0)
    ensures |r| == if |t| < RESULTS_LIMIT then |t| else RESULTS_LIMIT
    ensures forall q, i :: q in t && q !in Paths(r) && 0 <= i < |r| ==> t[q].scannedAt <= r[i].row.scannedAt
  {
    assert remaining.Keys == t.Keys - Paths(r);
    assert |remaining.Keys| == |t.Keys| - |Paths(r)|;
    forall q, i | q in t && q !in Paths(r) && 0 <= i < |r|
      ensures t[q].scannedAt <= r[i].row.scannedAt
    {
      assert q in remaining;
    }
  }

  /**
   * SELECT * FROM nas_files ORDER BY scanned_at DESC LIMIT 1000: the min(1000, |t|) rows
   * with the latest scanned_at, newest first (rows with equal scanned_at in some order).
   */
  method ListRecent(t: Table) returns (r: seq<Listed>)
    ensures |r| == if |t| < RESULTS_LIMIT then |t| else RESULTS_LIMIT
    ensures ListedFrom(t, r)
    ensures NewestFirst(r)
    ensures forall q, i :: q in t && q !in Paths(r) && 0 <= i < |r| ==> t[q].scannedAt <= r[i].row.scannedAt
  {
    var remaining := t;
    r := [];
    SelectionStart(t);
    while |r| < RESULTS_LIMIT && |remaining| > 0
      invariant |r| <= RESULTS_LIMIT
      invariant SelectionInv(t, r, remaining)
      decreases |remaining|
    {
      NewestExists(remaining);
      var k :| k in remaining && IsNewest(remaining, k);
      SelectionStep(t, r, remaining, k);
      r := r + [Listed(k, remaining[k])];
      remaining := remaining - {k};
    }
    SelectionDone(t, r, remaining);
  }
}
