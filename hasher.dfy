/**
 * calculate_md5 (services/pythonScriptTemplate.ts:85-93): open the file, read it in
 * blocks of 8192 bytes until a read returns nothing, feed every block to the MD5
 * accumulator, and answer the hex digest, or None when opening or any read raises.
 *
 * MD5 itself is not modelled: the digest is an arbitrary function `md5` of the bytes
 * fed to the accumulator, which the model keeps as the sequence of those bytes.
 */
module Hasher {
  import opened Wrappers

  newtype byte = x: int | 0 <= x < 256

  const BLOCK_SIZE: nat := 8192

  /**
   * A file as calculate_md5 meets it: its bytes, whether open() succeeds, and which
   * read call (0-based) raises, if any does.
   */
  datatype FileSource = FileSource(content: seq<byte>, opens: bool, failingRead: Option<nat>)

  /** What `f.read(BLOCK_SIZE)` returns at offset pos: the next block, shorter only at the end. */
  function ReadBlock(content: seq<byte>, pos: nat): (chunk: seq<byte>)
    requires pos <= |content|
    ensures |chunk| <= BLOCK_SIZE && pos + |chunk| <= |content|
    ensures chunk == content[pos..pos + |chunk|]
    ensures chunk == [] <==> pos == |content|
    ensures pos + |chunk| < |content| ==> |chunk| == BLOCK_SIZE
  {
    if |content| - pos <= BLOCK_SIZE then content[pos..] else content[pos..pos + BLOCK_SIZE]
  }

  /** Number of read calls the loop makes on `remaining` unread bytes, the final empty read included. */
  function ReadsNeeded(remaining: nat): (n: nat)
    ensures n >= 1
    decreases remaining
  {
    if remaining == 0 then 1
    else if remaining <= BLOCK_SIZE then 2
    else 1 + ReadsNeeded(remaining - BLOCK_SIZE)
  }

  /** The read count in closed form: one read per started block plus the final empty one. */
  lemma {:induction false} ReadsNeededClosedForm(remaining: nat)
    ensures ReadsNeeded(remaining) == (remaining + BLOCK_SIZE - 1) / BLOCK_SIZE + 1
    decreases remaining
  {
    if remaining > BLOCK_SIZE {
      ReadsNeededClosedForm(remaining - BLOCK_SIZE);
    }
  }

  /** Whether calculate_md5 on this file ends in the `except` branch. */
  predicate HashFails(f: FileSource) {
    !f.opens || (f.failingRead.Some? && f.failingRead.value < ReadsNeeded(|f.content|))
  }

  /** The answer calculate_md5 gives: None on failure, otherwise the digest of the whole content. */
  function Md5Of(f: FileSource, md5: seq<byte> -> string): Option<string>
  {
    if HashFails(f) then None else Some(md5(f.content))
  }

  method CalculateMd5(f: FileSource, md5: seq<byte> -> string) returns (r: Option<string>)
    ensures r == Md5Of(f, md5)
  {
    if !f.opens {
      return None;
    }
    var fed: seq<byte> := [];  // what md5.update has absorbed so far
    var pos: nat := 0;
    var calls: nat := 0;
    while true
      invariant pos <= |f.content|
      invariant fed == f.content[..pos]
      invariant calls + ReadsNeeded(|f.content| - pos) == ReadsNeeded(|f.content|)
      invariant f.failingRead.Some? ==> f.failingRead.value >= calls
      decreases |f.content| - pos
    {
      if f.failingRead == Some(calls) {
        return None;
      }
      var chunk := ReadBlock(f.content, pos);
      calls := calls + 1;
      if chunk == [] {
        break;
      }
      fed := fed + chunk;
      pos := pos + |chunk|;
    }
    assert fed == f.content;
    r := Some(md5(fed));
  }
}
