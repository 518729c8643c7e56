/** IndexBuffer: the in-memory copy of the first INDEX_SIZE bytes of the
    xleases volume. Searching and reading are functions of the buffer's bytes;
    writing a record changes the buffer in place, and dumping writes blocks of
    it back to the file. */
module XleaseIndexBuffer {
  import opened Wrappers
  import opened Text
  import opened XleaseLayout
  import opened XleaseRecord
  import opened DirectIO

  // ---------------------------------------------------------------------------
  // Searching

  /** pattern occurs in b at offset k. */
  predicate MatchAt(b: seq<byte>, pattern: seq<byte>, k: int) {
    0 <= k && k + |pattern| <= |b| && b[k..k + |pattern|] == pattern
  }

  /** mmap.find(pattern, start): the lowest offset at or after start where
      pattern occurs, or -1. */
  function Find(b: seq<byte>, pattern: seq<byte>, start: nat): (o: int)
    ensures o == -1 || (start <= o && MatchAt(b, pattern, o))
    ensures o == -1 ==> forall k :: start <= k ==> !MatchAt(b, pattern, k)
    ensures o != -1 ==> forall k :: start <= k < o ==> !MatchAt(b, pattern, k)
    decreases |b| - start
  {
    if start + |pattern| > |b| then -1
    else if b[start..start + |pattern|] == pattern then start
    else Find(b, pattern, start + 1)
  }

  /** The bytes find_record searches for: the lease id and the separator. */
  function Prefix(leaseId: string): (p: seq<byte>)
    requires IsAscii(leaseId)
    ensures |p| == |leaseId| + 1 && p[|leaseId|] == COLON
  {
    EncodeAscii(leaseId) + [COLON]
  }

  /** IndexBuffer.find_record: the number of the record holding the first
      occurrence of "<lease id>:" at or after RECORD_BASE, or -1. The offset
      found is not checked for alignment. */
  function FindRecord(b: seq<byte>, leaseId: string): (n: int)
    requires |b| == INDEX_SIZE && IsAscii(leaseId)
    ensures -1 <= n < MAX_RECORDS
  {
    var o := Find(b, Prefix(leaseId), RECORD_BASE);
    if o == -1 then -1 else RecordNumber(o)
  }

  /** find_record answers -1 exactly when the pattern occurs nowhere after
      RECORD_BASE, and otherwise names a record holding an occurrence. */
  lemma FindRecordMatches(b: seq<byte>, leaseId: string)
    requires |b| == INDEX_SIZE && IsAscii(leaseId)
    ensures var n := FindRecord(b, leaseId);
            (n == -1 <==> forall k :: RECORD_BASE <= k ==> !MatchAt(b, Prefix(leaseId), k)) &&
            (n != -1 ==> exists k :: RecordOffset(n) <= k < RecordOffset(n) + RECORD_SIZE && MatchAt(b, Prefix(leaseId), k))
  {
  }

  // ---------------------------------------------------------------------------
  // Records of the buffer

  /** The 64 bytes of record recnum. */
  function Slot(b: seq<byte>, recnum: int): (s: seq<byte>)
    requires |b| == INDEX_SIZE && 0 <= recnum < MAX_RECORDS
    ensures |s| == RECORD_SIZE
  {
    b[RecordOffset(recnum)..RecordOffset(recnum) + RECORD_SIZE]
  }

  /** IndexBuffer.read_record: decode the bytes of record recnum. */
  function ReadRecord(b: seq<byte>, recnum: int): (r: Result<Record, InvalidRecord>)
    requires |b| == INDEX_SIZE && 0 <= recnum < MAX_RECORDS
    ensures r.Failure? ==> r.error.record == Slot(b, recnum)
    ensures r.Success? ==> IsAscii(r.value.resource)
  {
    FromBytes(Slot(b, recnum))
  }

  /** The buffer after IndexBuffer.write_record puts data in record recnum. */
  function WithSlot(b: seq<byte>, recnum: int, data: seq<byte>): (r: seq<byte>)
    requires |b| == INDEX_SIZE && 0 <= recnum < MAX_RECORDS && |data| == RECORD_SIZE
    ensures |r| == INDEX_SIZE
  {
    b[..RecordOffset(recnum)] + data + b[RecordOffset(recnum) + RECORD_SIZE..]
  }

  /** Record slot n of b holds exactly Record.bytes of the valid record recs[n],
      for every n. */
  predicate Encodes(b: seq<byte>, recs: seq<Record>) {
    |b| == INDEX_SIZE && |recs| == MAX_RECORDS &&
    forall n :: 0 <= n < MAX_RECORDS ==> ValidRecord(recs[n]) && Slot(b, n) == Bytes(recs[n])
  }

  /** Every record slot holds the encoding of a valid record: the state that
      format leaves and that add and remove keep. */
  ghost predicate WellFormed(b: seq<byte>) {
    exists recs :: Encodes(b, recs)
  }

  /** The records a well-formed buffer holds. */
  ghost function Records(b: seq<byte>): (recs: seq<Record>)
    requires WellFormed(b)
    ensures Encodes(b, recs)
  {
    var recs :| Encodes(b, recs); recs
  }

  /** read_record on a well-formed buffer returns the record encoded there. */
  lemma ReadEncoded(b: seq<byte>, recs: seq<Record>, n: int)
    requires Encodes(b, recs) && 0 <= n < MAX_RECORDS
    ensures ReadRecord(b, n) == Success(recs[n])
  {
    RoundTrip(recs[n]);
  }

  /** The records of a buffer are determined by its bytes. */
  lemma EncodesUnique(b: seq<byte>, recs: seq<Record>, other: seq<Record>)
    requires Encodes(b, recs) && Encodes(b, other)
    ensures recs == other
  {
    forall n | 0 <= n < MAX_RECORDS ensures recs[n] == other[n] {
      RoundTrip(recs[n]);
      RoundTrip(other[n]);
    }
  }

  /** The lowest-numbered record at or after from whose resource is leaseId, or -1. */
  function FirstWith(recs: seq<Record>, leaseId: string, from: nat): (n: int)
    ensures n == -1 || (from <= n < |recs| && recs[n].resource == leaseId)
    ensures n == -1 ==> forall m :: from <= m < |recs| ==> recs[m].resource != leaseId
    ensures n != -1 ==> forall m :: from <= m < n ==> recs[m].resource != leaseId
    decreases |recs| - from
  {
    if from >= |recs| then -1
    else if recs[from].resource == leaseId then from
    else FirstWith(recs, leaseId, from + 1)
  }

  // ---------------------------------------------------------------------------
  // find_record lands on a record boundary

  lemma EncodeAsciiInjective(a: string, b: string)
    requires IsAscii(a) && IsAscii(b) && EncodeAscii(a) == EncodeAscii(b)
    ensures a == b
  {
    CharsOfAscii(a);
    CharsOfAscii(b);
  }

  /** The id bytes of a valid lease id hold no separator. */
  lemma PrefixBytes(leaseId: string)
    requires ValidLeaseId(leaseId)
    ensures forall j :: 0 <= j < 36 ==> Prefix(leaseId)[j] != COLON
    ensures Prefix(leaseId)[36] == COLON && |Prefix(leaseId)| == 37
  {
    forall j | 0 <= j < 36 ensures Prefix(leaseId)[j] != COLON {
      assert Prefix(leaseId)[j] as int == leaseId[j] as int;
      assert leaseId[j] != ':';
    }
  }

  /** The first 37 bytes of a valid record: its resource and a separator. */
  lemma {:induction false} RecordPrefix(r: Record)
    requires ValidRecord(r)
    ensures |Bytes(r)| == RECORD_SIZE && ValidLeaseId(r.resource)
    ensures Bytes(r)[..37] == Prefix(r.resource)
    ensures ColonShape(Bytes(r))
  {
    BytesLayout(r);
    var s := Bytes(r);
    assert s[..37] == s[..36] + [s[36]];
  }

  /** The pattern occurs at the start of record n exactly when n's resource is the id. */
  lemma {:induction false} MatchAtRecordStart(b: seq<byte>, recs: seq<Record>, leaseId: string, n: int)
    requires Encodes(b, recs) && ValidLeaseId(leaseId) && 0 <= n < MAX_RECORDS
    ensures MatchAt(b, Prefix(leaseId), RecordOffset(n)) <==> recs[n].resource == leaseId
  {
    var r := recs[n];
    RecordPrefix(r);
    var s := Slot(b, n);
    assert s == Bytes(r);
    assert RecordOffset(n) + RECORD_SIZE <= |b|;
    assert forall j :: 0 <= j < 37 ==> b[RecordOffset(n) + j] == s[j];
    assert b[RecordOffset(n)..RecordOffset(n) + 37] == s[..37];
    if s[..37] == Prefix(leaseId) {
      assert EncodeAscii(r.resource) == Prefix(r.resource)[..36];
      assert EncodeAscii(leaseId) == Prefix(leaseId)[..36];
      EncodeAsciiInjective(r.resource, leaseId);
    }
  }

  /** Byte k of record n, read through the whole buffer. */
  lemma SlotByte(b: seq<byte>, n: int, k: int)
    requires |b| == INDEX_SIZE && 0 <= n < MAX_RECORDS && 0 <= k < RECORD_SIZE
    ensures b[RecordOffset(n) + k] == Slot(b, n)[k]
  {
  }

  /** Whether byte k of a record is a separator. */
  lemma {:induction false} ColonAt(b: seq<byte>, recs: seq<Record>, n: int, k: int)
    requires Encodes(b, recs) && 0 <= n < MAX_RECORDS && 0 <= k < RECORD_SIZE
    ensures b[RecordOffset(n) + k] == COLON <==> k == 36 || k == 38 || k == 49
  {
    RecordPrefix(recs[n]);
    SlotByte(b, n, k);
    assert Slot(b, n) == Bytes(recs[n]);
  }

  /** The pattern never occurs strictly inside a record of a well-formed buffer. */
  lemma {:induction false} NoMatchInside(b: seq<byte>, recs: seq<Record>, leaseId: string, n: int, k: int)
    requires Encodes(b, recs) && ValidLeaseId(leaseId) && 0 <= n < MAX_RECORDS && 0 < k < RECORD_SIZE
    ensures !MatchAt(b, Prefix(leaseId), RecordOffset(n) + k)
  {
    var o := RecordOffset(n) + k;
    var p := Prefix(leaseId);
    PrefixBytes(leaseId);
    if MatchAt(b, p, o) {
      assert b[o + 36] == b[o..o + 37][36];
      if k + 36 < RECORD_SIZE {
        ColonAt(b, recs, n, k + 36);
        ColonAt(b, recs, n, 36);
      } else {
        ColonAt(b, recs, n + 1, k - 28);
      }
    }
  }

  /** Find skips a range of offsets where the pattern does not occur. */
  lemma {:induction false} FindSkips(b: seq<byte>, p: seq<byte>, a: nat, c: nat)
    requires a <= c
    requires forall k :: a <= k < c ==> !MatchAt(b, p, k)
    ensures Find(b, p, a) == Find(b, p, c) || (Find(b, p, a) == -1 && c + |p| > |b|)
    decreases c - a
  {
    if a < c && a + |p| <= |b| {
      assert !MatchAt(b, p, a);
      FindSkips(b, p, a + 1, c);
    }
  }

  lemma FindPastEnd(b: seq<byte>, p: seq<byte>, c: nat)
    requires c + |p| > |b|
    ensures Find(b, p, c) == -1
  {
  }

  /** Searching from record n of a well-formed buffer finds the first record at
      or after n whose resource is the id, at its first byte. */
  lemma {:induction false} FindFromRecord(b: seq<byte>, recs: seq<Record>, leaseId: string, n: int)
    requires Encodes(b, recs) && ValidLeaseId(leaseId) && 0 <= n <= MAX_RECORDS
    ensures var f := FirstWith(recs, leaseId, n);
            Find(b, Prefix(leaseId), RecordOffset(n)) == if f == -1 then -1 else RecordOffset(f)
    decreases MAX_RECORDS - n
  {
    var p := Prefix(leaseId);
    PrefixBytes(leaseId);
    if n == MAX_RECORDS {
      FindPastEnd(b, p, RecordOffset(n));
    } else {
      MatchAtRecordStart(b, recs, leaseId, n);
      if recs[n].resource != leaseId {
        forall k | RecordOffset(n) <= k < RecordOffset(n + 1)
          ensures !MatchAt(b, p, k)
        {
          if k > RecordOffset(n) {
            NoMatchInside(b, recs, leaseId, n, k - RecordOffset(n));
          }
        }
        FindSkips(b, p, RecordOffset(n), RecordOffset(n + 1));
        FindFromRecord(b, recs, leaseId, n + 1);
      }
    }
  }

  /** With every record well-formed and a well-formed lease id, find_record
      returns exactly the lowest-numbered record whose resource is the id, or
      -1 when there is none: a match always lands on a record boundary. */
  lemma FindRecordIsFirstWith(b: seq<byte>, recs: seq<Record>, leaseId: string)
    requires Encodes(b, recs) && ValidLeaseId(leaseId)
    ensures FindRecord(b, leaseId) == FirstWith(recs, leaseId, 0)
  {
    FindFromRecord(b, recs, leaseId, 0);
    var f := FirstWith(recs, leaseId, 0);
    if f != -1 {
      RecordNumberOfOffset(f);
    }
  }

  // ---------------------------------------------------------------------------
  // write_record changes one record only

  /** Writing record n changes its 64 bytes and nothing else. */
  lemma {:induction false} WithSlotFrame(b: seq<byte>, n: int, data: seq<byte>)
    requires |b| == INDEX_SIZE && 0 <= n < MAX_RECORDS && |data| == RECORD_SIZE
    ensures Slot(WithSlot(b, n, data), n) == data
    ensures forall i :: 0 <= i < INDEX_SIZE && !(RecordOffset(n) <= i < RecordOffset(n) + RECORD_SIZE) ==>
              WithSlot(b, n, data)[i] == b[i]
    ensures forall m :: 0 <= m < MAX_RECORDS && m != n ==> Slot(WithSlot(b, n, data), m) == Slot(b, m)
  {
    var w := WithSlot(b, n, data);
    var off := RecordOffset(n);
    assert w[..off] == b[..off];
    assert w[off..off + RECORD_SIZE] == data;
    assert w[off + RECORD_SIZE..] == b[off + RECORD_SIZE..];
    forall i | 0 <= i < INDEX_SIZE && !(off <= i < off + RECORD_SIZE) ensures w[i] == b[i] {
      if i < off {
        assert w[..off][i] == b[..off][i];
      } else {
        assert w[off + RECORD_SIZE..][i - off - RECORD_SIZE] == b[off + RECORD_SIZE..][i - off - RECORD_SIZE];
      }
    }
    forall m | 0 <= m < MAX_RECORDS && m != n ensures Slot(w, m) == Slot(b, m) {
      var o := RecordOffset(m);
      assert o + RECORD_SIZE <= off || off + RECORD_SIZE <= o;
      forall k | 0 <= k < RECORD_SIZE ensures Slot(w, m)[k] == Slot(b, m)[k] {
        assert w[o + k] == b[o + k];
      }
    }
  }

  /** Writing a valid record keeps the buffer well-formed, and the record view
      changes in that one position. */
  lemma {:induction false} WithRecord(b: seq<byte>, recs: seq<Record>, n: int, r: Record)
    requires Encodes(b, recs) && 0 <= n < MAX_RECORDS && ValidRecord(r)
    ensures |Bytes(r)| == RECORD_SIZE
    ensures Encodes(WithSlot(b, n, Bytes(r)), recs[n := r])
  {
    BytesLayout(r);
    var w := WithSlot(b, n, Bytes(r));
    WithSlotFrame(b, n, Bytes(r));
    var recs' := recs[n := r];
    forall m | 0 <= m < MAX_RECORDS ensures ValidRecord(recs'[m]) && Slot(w, m) == Bytes(recs'[m]) {
      if m != n {
        assert Slot(w, m) == Slot(b, m);
      }
    }
  }

  // ---------------------------------------------------------------------------
  // The buffer object

  class IndexBuffer {
    /** The mmap holding the index: INDEX_SIZE bytes. */
    const buf: array<byte>

    /** IndexBuffer.__init__: allocate the buffer and read it from the start
        of the file. The file must hold at least INDEX_SIZE bytes: the read
        loop has no end-of-file check and would not terminate otherwise. */
    constructor (file: DirectFile)
      requires INDEX_SIZE <= |file.contents|
      modifies file
      ensures fresh(buf) && buf.Length == INDEX_SIZE
      ensures file.contents == old(file.contents) && file.durable == old(file.durable)
      ensures buf[..] == file.contents[..INDEX_SIZE]
      ensures file.position == INDEX_SIZE
    {
      buf := new byte[INDEX_SIZE];
      new;
      file.Seek(0);
      var n := file.ReadInto(buf);
    }

    /** IndexBuffer.write_record: overwrite record recnum in memory only. */
    method WriteRecord(recnum: int, record: Record)
      requires buf.Length == INDEX_SIZE && 0 <= recnum < MAX_RECORDS
      requires IsAscii(record.resource) && |Bytes(record)| == RECORD_SIZE
      modifies buf
      ensures buf[..] == WithSlot(old(buf[..]), recnum, Bytes(record))
    {
      var offset := RecordOffset(recnum);
      var data := Bytes(record);
      forall i | 0 <= i < RECORD_SIZE {
        buf[offset + i] := data[i];
      }
      assert buf[..] == old(buf[..])[..offset] + data + old(buf[..])[offset + RECORD_SIZE..];
    }

    /** IndexBuffer.dump_record: write the one block holding record recnum to
        the file at that block's offset, then fsync. */
    method DumpRecord(recnum: int, file: DirectFile)
      requires buf.Length == INDEX_SIZE && 0 <= recnum < MAX_RECORDS && INDEX_SIZE <= |file.contents|
      modifies file
      ensures var start := BlockStart(RecordOffset(recnum));
              start + BLOCK_SIZE <= INDEX_SIZE &&
              file.contents == Overwrite(old(file.contents), start, buf[start..start + BLOCK_SIZE])
      ensures file.durable == file.contents
      ensures file.position == BlockStart(RecordOffset(recnum)) + BLOCK_SIZE
    {
      var offset := RecordOffset(recnum);
      var blockStart := offset - offset % BLOCK_SIZE;
      RecordWithinOneBlock(recnum);
      var block := buf[blockStart..blockStart + BLOCK_SIZE];
      file.Seek(blockStart);
      file.Write(block);
      file.Fsync();
    }

    /** IndexBuffer.dump: write the whole buffer at the start of the file, then
        fsync. Not atomic on storage: a failed run may leave some blocks old. */
    method Dump(file: DirectFile)
      requires buf.Length == INDEX_SIZE
      modifies file
      ensures file.contents == Overwrite(old(file.contents), 0, buf[..])
      ensures file.durable == file.contents
      ensures file.position == INDEX_SIZE
    {
      file.Seek(0);
      file.Write(buf[..]);
      file.Fsync();
    }
  }

  /** After dump_record(n) the durable bytes of record n are the buffer's. */
  lemma {:induction false} DumpedBlockHoldsRecord(contents: seq<byte>, b: seq<byte>, n: int)
    requires |b| == INDEX_SIZE && INDEX_SIZE <= |contents| && 0 <= n < MAX_RECORDS
    ensures var start := BlockStart(RecordOffset(n));
            var after := Overwrite(contents, start, b[start..start + BLOCK_SIZE]);
            after[RecordOffset(n)..RecordOffset(n) + RECORD_SIZE] == Slot(b, n) &&
            |after| == |contents| &&
            forall i :: 0 <= i < |contents| && !(start <= i < start + BLOCK_SIZE) ==> after[i] == contents[i]
  {
    RecordWithinOneBlock(n);
    var start := BlockStart(RecordOffset(n));
    var block := b[start..start + BLOCK_SIZE];
    var after := Overwrite(contents, start, block);
    var off := RecordOffset(n);
    assert after[start..start + BLOCK_SIZE] == block;
    forall k | 0 <= k < RECORD_SIZE ensures after[off + k] == Slot(b, n)[k] {
      assert after[start..start + BLOCK_SIZE][off - start + k] == block[off - start + k];
    }
    assert after[off..off + RECORD_SIZE] == Slot(b, n);
    forall i | 0 <= i < |contents| && !(start <= i < start + BLOCK_SIZE) ensures after[i] == contents[i] {
      if i < start {
        assert after[..start][i] == contents[..start][i];
      } else {
        assert after[start + BLOCK_SIZE..][i - start - BLOCK_SIZE] == contents[start + BLOCK_SIZE..][i - start - BLOCK_SIZE];
      }
    }
  }
}
