/**
 * The record shape the front end shows and exports (types.ts:1-10).
 */
module Types {

  /** The three values of `FileRecord.status`. */
  datatype FileStatus = Scanned | Skipped | Failed

  /** The status as the string the front end stores and exports. */
  function StatusText(s: FileStatus): (t: string)
    ensures |t| > 0
    ensures forall i :: 0 <= i < |t| ==> 'a' <= t[i] <= 'z'
  {
    match s
    case Scanned => "scanned"
    case Skipped => "skipped"
    case Failed => "failed"
  }

  /**
   * One scanned file as the front end holds it. `size` is a whole number of bytes and
   * `scannedAt` an ISO-8601 text, both kept as the front end receives them.
   */
  datatype FileRecord = FileRecord(id: string, filename: string, path: string, extension: string,
                                   size: nat, md5: string, scannedAt: string, status: FileStatus)
}
