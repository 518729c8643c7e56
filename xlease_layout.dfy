/** Geometry of the xleases volume: where the index records and the lease
    areas live, in bytes.

      block       used for
      0-3         metadata
      4-503       lease records 0-3999
      504-2047    unused
      2048-       one lease area per record, in record-number order
*/
module XleaseLayout {

  /** Device block size; fixed at 512 (4K blocks are not supported). */
  const BLOCK_SIZE: nat := 512

  /** Size of one sanlock lease area. */
  const LEASE_SIZE: nat := 2048 * BLOCK_SIZE

  /** The first lease area is taken by the index itself. */
  const LEASE_BASE: nat := LEASE_SIZE

  const METADATA_SIZE: nat := 4 * BLOCK_SIZE

  /** Offset of record 0. */
  const RECORD_BASE: nat := METADATA_SIZE

  const MAX_RECORDS: nat := 4000

  const RECORD_SIZE: nat := 64

  /** Bytes read from storage when the index is loaded. */
  const INDEX_SIZE: nat := METADATA_SIZE + MAX_RECORDS * RECORD_SIZE

  /** IndexBuffer._record_offset. */
  function RecordOffset(recnum: int): (offset: int)
    ensures 0 <= recnum < MAX_RECORDS ==> RECORD_BASE <= offset && offset + RECORD_SIZE <= INDEX_SIZE
  {
    RECORD_BASE + recnum * RECORD_SIZE
  }

  /** IndexBuffer._record_number: Python's floor division, which agrees with
      Dafny's division because the divisor is positive. The result is the record
      whose 64 bytes contain the offset. */
  function RecordNumber(offset: int): (recnum: int)
    ensures RecordOffset(recnum) <= offset < RecordOffset(recnum) + RECORD_SIZE
  {
    (offset - RECORD_BASE) / RECORD_SIZE
  }

  /** Index._lease_offset. */
  function LeaseOffset(recnum: int): int {
    LEASE_BASE + recnum * LEASE_SIZE
  }

  /** Start of the block holding a byte offset, as IndexBuffer.dump_record computes it. */
  function BlockStart(offset: int): (start: int)
    ensures start % BLOCK_SIZE == 0
    ensures start <= offset < start + BLOCK_SIZE
  {
    offset - offset % BLOCK_SIZE
  }

  lemma RecordNumberOfOffset(recnum: int)
    ensures RecordNumber(RecordOffset(recnum)) == recnum
  {
  }

  /** A record offset maps back to its own record for each of its 64 bytes. */
  lemma RecordNumberInside(recnum: int, k: int)
    requires 0 <= k < RECORD_SIZE
    ensures RecordNumber(RecordOffset(recnum) + k) == recnum
  {
  }

  /** Record n lies in block 4 + n / 8, entirely: the single block that
      dump_record writes holds all of its bytes. */
  lemma {:induction false} RecordWithinOneBlock(recnum: int)
    requires 0 <= recnum < MAX_RECORDS
    ensures BlockStart(RecordOffset(recnum)) == (4 + recnum / 8) * BLOCK_SIZE
    ensures BlockStart(RecordOffset(recnum)) <= RecordOffset(recnum)
    ensures RecordOffset(recnum) + RECORD_SIZE <= BlockStart(RecordOffset(recnum)) + BLOCK_SIZE
    ensures RECORD_BASE <= BlockStart(RecordOffset(recnum))
    ensures BlockStart(RecordOffset(recnum)) + BLOCK_SIZE <= INDEX_SIZE
  {
    var q, r := recnum / 8, recnum % 8;
    assert recnum == 8 * q + r;
    var off := RecordOffset(recnum);
    assert off == (4 + q) * BLOCK_SIZE + 64 * r;
    assert off % BLOCK_SIZE == 64 * r;
    assert q <= 499;
  }

  /** Records 0..3999 fill exactly blocks 4..503, and the index is 504 blocks. */
  lemma RecordTableBlocks()
    ensures RecordOffset(0) == 4 * BLOCK_SIZE
    ensures RecordOffset(MAX_RECORDS - 1) + RECORD_SIZE == 504 * BLOCK_SIZE
    ensures INDEX_SIZE == 504 * BLOCK_SIZE
    ensures INDEX_SIZE <= LEASE_BASE
  {
  }

  /** Lease areas are block aligned, start after the index and do not overlap. */
  lemma {:induction false} LeaseAreas(m: int, n: int)
    requires 0 <= m < n
    ensures LeaseOffset(0) == LEASE_BASE
    ensures LeaseOffset(m) % BLOCK_SIZE == 0
    ensures INDEX_SIZE <= LeaseOffset(m)
    ensures LeaseOffset(m) + LEASE_SIZE <= LeaseOffset(n)
  {
    assert LeaseOffset(m) == BLOCK_SIZE * (2048 + 2048 * m);
    assert LeaseOffset(n) - LeaseOffset(m) == (n - m) * LEASE_SIZE;
  }
}
