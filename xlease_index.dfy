/** Index: the lease index stored at the start of an xleases volume. It is
    read from storage once, when created; every change is made to the
    in-memory buffer and then written back, one block at a time, to storage. */
module Xlease {
  import opened Wrappers
  import opened Text
  import opened XleaseLayout
  import opened XleaseRecord
  import opened DirectIO
  import opened XleaseIndexBuffer

  /** The LeaseInfo named tuple. */
  datatype LeaseInfo = LeaseInfo(lockspace: string, resource: string, path: string, offset: int, modified: int)

  /** The exceptions the index raises (I/O errors are not modelled). */
  datatype Error =
    | NoSuchLease(leaseId: string)
    | LeaseExists(leaseId: string, modified: int)
    | StaleLease(leaseId: string, modified: int)
    | NoSpace(leaseId: string)
    | BadRecord(invalid: InvalidRecord)

  /** One value of the dictionary Index.leases returns: offset, state name and
      modification time. */
  datatype LeaseEntry = LeaseEntry(offset: int, state: string, modified: int)

  /** The record remove and format write. */
  function FreeRecord(now: int): (r: Record)
    ensures r.resource == BLANK_UUID && r.state == Free && r.modified == now
    ensures ValidLeaseId(r.resource)
  {
    BlankUuidValid();
    Record(BLANK_UUID, Free, now)
  }

  function Entry(recnum: int, r: Record): LeaseEntry {
    LeaseEntry(LeaseOffset(recnum), StateName(r.state), r.modified)
  }

  // ---------------------------------------------------------------------------
  // Specification of Index.leases

  /** The highest-numbered record below n that is not free and holds leaseId, or -1. */
  function LastLease(recs: seq<Record>, leaseId: string, n: nat): (i: int)
    requires n <= |recs|
    ensures i == -1 || (0 <= i < n && recs[i].state != Free && recs[i].resource == leaseId)
    ensures forall j :: i < j < n ==> recs[j].state == Free || recs[j].resource != leaseId
  {
    if n == 0 then -1
    else if recs[n - 1].state != Free && recs[n - 1].resource == leaseId then n - 1
    else LastLease(recs, leaseId, n - 1)
  }

  /** The result of parsing each record of the buffer b, in record order. */
  function RecordResults(b: seq<byte>): (rs: seq<Result<Record, InvalidRecord>>)
    requires |b| == INDEX_SIZE
  {
    seq(MAX_RECORDS, i requires 0 <= i < MAX_RECORDS => ReadRecord(b, i))
  }

  /** What the loop of Index.leases holds after the first n parsed records
      rs: the dictionary so far, or the error of the first record that does
      not parse. A later record of the same lease replaces an earlier one. */
  function LeasesUpTo(rs: seq<Result<Record, InvalidRecord>>, n: nat): Result<map<string, LeaseEntry>, Error>
    requires n <= |rs|
  {
    if n == 0 then Success(map[])
    else match LeasesUpTo(rs, n - 1)
      case Failure(e) => Failure(e)
      case Success(m) =>
        match rs[n - 1]
        case Failure(e) => Failure(BadRecord(e))
        case Success(rec) => Success(if rec.state != Free then m[rec.resource := Entry(n - 1, rec)] else m)
  }

  /** One turn of the leases loop on a record that parses. */
  lemma LeasesStep(rs: seq<Result<Record, InvalidRecord>>, n: nat, m: map<string, LeaseEntry>, rec: Record)
    requires n < |rs| && LeasesUpTo(rs, n) == Success(m) && rs[n] == Success(rec)
    ensures LeasesUpTo(rs, n + 1) == Success(if rec.state != Free then m[rec.resource := Entry(n, rec)] else m)
  {
  }

  /** One turn of the leases loop on a record that does not parse: leases
      fails with that record's error. */
  lemma LeasesFailure(rs: seq<Result<Record, InvalidRecord>>, n: nat, m: map<string, LeaseEntry>)
    requires n < |rs| && LeasesUpTo(rs, n) == Success(m) && rs[n].Failure?
    ensures LeasesUpTo(rs, |rs|) == Failure(BadRecord(rs[n].error))
  {
    LeasesFailureSticks(rs, n + 1, |rs|);
  }

  /** Once a record fails to parse, leases fails with that error. */
  lemma {:induction false} LeasesFailureSticks(rs: seq<Result<Record, InvalidRecord>>, n: nat, m: nat)
    requires n <= m <= |rs| && LeasesUpTo(rs, n).Failure?
    ensures LeasesUpTo(rs, m) == LeasesUpTo(rs, n)
    decreases m - n
  {
    if n < m {
      LeasesFailureSticks(rs, n, m - 1);
    }
  }

  /** The dictionary leases builds from the records 0 .. n-1 when all of
      them parse. */
  function LeasesOf(recs: seq<Record>, n: nat): map<string, LeaseEntry>
    requires n <= |recs|
  {
    if n == 0 then map[]
    else
      var m := LeasesOf(recs, n - 1);
      if recs[n - 1].state != Free then m[recs[n - 1].resource := Entry(n - 1, recs[n - 1])] else m
  }

  /** The keys of that dictionary are the ids of the records below n that are
      not free, each mapped to the entry of the last such record. */
  lemma {:induction false} LeasesOfKeys(recs: seq<Record>, n: nat)
    requires n <= |recs|
    ensures forall k :: k in LeasesOf(recs, n) <==> LastLease(recs, k, n) != -1
    ensures forall k :: k in LeasesOf(recs, n) ==>
              LeasesOf(recs, n)[k] == Entry(LastLease(recs, k, n), recs[LastLease(recs, k, n)])
  {
    if n > 0 {
      LeasesOfKeys(recs, n - 1);
    }
  }

  /** When every record parses, leases builds LeasesOf the parsed records. */
  lemma {:induction false} LeasesOfRecords(rs: seq<Result<Record, InvalidRecord>>, recs: seq<Record>, n: nat)
    requires |rs| == |recs| && n <= |rs| && forall i :: 0 <= i < |rs| ==> rs[i] == Success(recs[i])
    ensures LeasesUpTo(rs, n) == Success(LeasesOf(recs, n))
  {
    if n > 0 {
      LeasesOfRecords(rs, recs, n - 1);
      LeasesStep(rs, n - 1, LeasesOf(recs, n - 1), recs[n - 1]);
    }
  }

  /** On a well-formed buffer every record parses to the record it encodes. */
  lemma RecordResultsEncoded(b: seq<byte>, recs: seq<Record>)
    requires Encodes(b, recs)
    ensures |RecordResults(b)| == |recs|
    ensures forall i :: 0 <= i < |recs| ==> RecordResults(b)[i] == Success(recs[i])
  {
    forall i | 0 <= i < |recs|
      ensures RecordResults(b)[i] == Success(recs[i])
    {
      ReadEncoded(b, recs, i);
    }
  }

  /** Index.leases on a well-formed buffer: it succeeds, its keys are the ids
      of the records that are not free, and each maps to the entry of the last
      record holding it. */
  lemma LeasesOnRecords(b: seq<byte>, recs: seq<Record>)
    requires Encodes(b, recs)
    ensures var r := LeasesUpTo(RecordResults(b), MAX_RECORDS);
            r.Success? &&
            (forall k :: k in r.value <==> LastLease(recs, k, MAX_RECORDS) != -1) &&
            (forall k :: k in r.value ==>
               r.value[k] == Entry(LastLease(recs, k, MAX_RECORDS), recs[LastLease(recs, k, MAX_RECORDS)]))
  {
    RecordResultsEncoded(b, recs);
    LeasesOfRecords(RecordResults(b), recs, MAX_RECORDS);
    LeasesOfKeys(recs, MAX_RECORDS);
  }

  // ---------------------------------------------------------------------------
  // Specification of Index.format

  /** k copies of d, one after the other. */
  function Concat(d: seq<byte>, k: nat): (s: seq<byte>)
    ensures |s| == k * |d|
  {
    if k == 0 then [] else Concat(d, k - 1) + d
  }

  lemma {:induction false} ConcatSlice(d: seq<byte>, k: nat, n: nat)
    requires |d| == RECORD_SIZE && n < k
    ensures |Concat(d, k)| == k * RECORD_SIZE
    ensures Concat(d, k)[n * RECORD_SIZE..n * RECORD_SIZE + RECORD_SIZE] == d
  {
    var c := Concat(d, k - 1);
    assert Concat(d, k) == c + d;
    if n < k - 1 {
      ConcatSlice(d, k - 1, n);
      assert (c + d)[n * RECORD_SIZE..n * RECORD_SIZE + RECORD_SIZE] == c[n * RECORD_SIZE..n * RECORD_SIZE + RECORD_SIZE];
    } else {
      assert |c| == n * RECORD_SIZE;
    }
  }

  /** The buffer after the format loop has written d into records 0 .. k-1. */
  function FormattedUpTo(b: seq<byte>, d: seq<byte>, k: nat): (r: seq<byte>)
    requires |b| == INDEX_SIZE && |d| == RECORD_SIZE && k <= MAX_RECORDS
    ensures |r| == INDEX_SIZE
  {
    b[..RECORD_BASE] + Concat(d, k) + b[RecordOffset(k)..]
  }

  lemma {:induction false} FormatStep(b: seq<byte>, d: seq<byte>, k: nat)
    requires |b| == INDEX_SIZE && |d| == RECORD_SIZE && k < MAX_RECORDS
    ensures WithSlot(FormattedUpTo(b, d, k), k, d) == FormattedUpTo(b, d, k + 1)
  {
    var x := FormattedUpTo(b, d, k);
    assert x[..RecordOffset(k)] == b[..RECORD_BASE] + Concat(d, k);
    assert x[RecordOffset(k) + RECORD_SIZE..] == b[RecordOffset(k + 1)..];
  }

  /** Every record of a formatted buffer is d: with d the bytes of a free
      record, the buffer is well-formed and holds only free records. */
  lemma {:induction false} FormattedEncodes(b: seq<byte>, now: int)
    requires |b| == INDEX_SIZE && ValidTimestamp(now)
    ensures |Bytes(FreeRecord(now))| == RECORD_SIZE
    ensures Encodes(FormattedUpTo(b, Bytes(FreeRecord(now)), MAX_RECORDS), Repeat(FreeRecord(now), MAX_RECORDS))
  {
    BlankUuidValid();
    var d := Bytes(FreeRecord(now));
    BytesLayout(FreeRecord(now));
    var f := FormattedUpTo(b, d, MAX_RECORDS);
    forall n | 0 <= n < MAX_RECORDS ensures Slot(f, n) == d {
      FormattedSlot(b, d, n);
    }
  }

  /** Every slot of the formatted buffer holds the record format wrote. */
  lemma FormattedSlot(b: seq<byte>, d: seq<byte>, n: nat)
    requires |b| == INDEX_SIZE && |d| == RECORD_SIZE && n < MAX_RECORDS
    ensures Slot(FormattedUpTo(b, d, MAX_RECORDS), n) == d
  {
    var f := FormattedUpTo(b, d, MAX_RECORDS);
    ConcatSlice(d, MAX_RECORDS, n);
    assert f[RECORD_BASE..RECORD_BASE + MAX_RECORDS * RECORD_SIZE] == Concat(d, MAX_RECORDS);
    assert Slot(f, n) == Concat(d, MAX_RECORDS)[n * RECORD_SIZE..n * RECORD_SIZE + RECORD_SIZE];
  }

  /** In a formatted index only the blank id is found, first in record 0. */
  lemma FormattedFirstWith(now: int, leaseId: string)
    ensures FirstWith(Repeat(FreeRecord(now), MAX_RECORDS), leaseId, 0) == if leaseId == BLANK_UUID then 0 else -1
  {
    var recs := Repeat(FreeRecord(now), MAX_RECORDS);
    assert recs[0].resource == BLANK_UUID;
    assert forall m :: 0 <= m < |recs| ==> recs[m].resource == BLANK_UUID;
  }

  /** A formatted index has no leases. */
  lemma FormattedIsEmpty(b: seq<byte>, now: int)
    requires |b| == INDEX_SIZE && ValidTimestamp(now)
    ensures |Bytes(FreeRecord(now))| == RECORD_SIZE
    ensures LeasesUpTo(RecordResults(FormattedUpTo(b, Bytes(FreeRecord(now)), MAX_RECORDS)), MAX_RECORDS) == Success(map[])
  {
    FormattedEncodes(b, now);
    var f := FormattedUpTo(b, Bytes(FreeRecord(now)), MAX_RECORDS);
    var recs := Repeat(FreeRecord(now), MAX_RECORDS);
    LeasesOnRecords(f, recs);
    var m := LeasesUpTo(RecordResults(f), MAX_RECORDS).value;
    assert forall k :: k !in m by {
      forall k ensures k !in m {
        var i := LastLease(recs, k, MAX_RECORDS);
      }
    }
    assert m == map[];
  }

  /** In a formatted index lookup finds no lease, and add takes record 0. */
  lemma FormattedLookupAndAdd(b: seq<byte>, now: int, lockspace: string, path: string, leaseId: string)
    requires |b| == INDEX_SIZE && ValidTimestamp(now) && ValidLeaseId(leaseId) && leaseId != BLANK_UUID
    ensures |Bytes(FreeRecord(now))| == RECORD_SIZE
    ensures var f := FormattedUpTo(b, Bytes(FreeRecord(now)), MAX_RECORDS);
            LookupIn(f, lockspace, path, leaseId) == Failure(NoSuchLease(leaseId)) &&
            AddPlan(f, leaseId) == Success(0)
  {
    FormattedEncodes(b, now);
    var f := FormattedUpTo(b, Bytes(FreeRecord(now)), MAX_RECORDS);
    var recs := Repeat(FreeRecord(now), MAX_RECORDS);
    FormattedFirstWith(now, leaseId);
    FormattedFirstWith(now, BLANK_UUID);
    LookupOnRecords(f, recs, lockspace, path, leaseId);
    AddOnRecords(f, recs, leaseId, now);
  }

  // ---------------------------------------------------------------------------
  // Unique lease ids

  /** No lease id other than the blank one is held by two records. */
  predicate UniqueLeases(recs: seq<Record>) {
    forall i, j :: 0 <= i < j < |recs| && recs[i].resource == recs[j].resource ==> recs[i].resource == BLANK_UUID
  }

  /** Adding a lease that is not in the index keeps ids unique. */
  lemma AddKeepsUnique(recs: seq<Record>, free: nat, r: Record)
    requires UniqueLeases(recs) && free < |recs| && FirstWith(recs, r.resource, 0) == -1
    ensures UniqueLeases(recs[free := r])
  {
    var recs' := recs[free := r];
    forall i, j | 0 <= i < j < |recs'| && recs'[i].resource == recs'[j].resource
      ensures recs'[i].resource == BLANK_UUID
    {
    }
  }

  /** Freeing a record keeps ids unique. */
  lemma RemoveKeepsUnique(recs: seq<Record>, n: nat, now: int)
    requires UniqueLeases(recs) && n < |recs|
    ensures UniqueLeases(recs[n := FreeRecord(now)])
  {
  }

  lemma FormattedUnique(now: int)
    ensures UniqueLeases(Repeat(FreeRecord(now), MAX_RECORDS))
  {
  }

  /** After a lease that was absent is written into a record, that record is
      the first holding it. */
  lemma FirstWithAdded(recs: seq<Record>, leaseId: string, free: nat, r: Record)
    requires FirstWith(recs, leaseId, 0) == -1 && free < |recs| && r.resource == leaseId
    ensures FirstWith(recs[free := r], leaseId, 0) == free
  {
    var recs' := recs[free := r];
    assert recs'[free].resource == leaseId;
    assert forall m :: 0 <= m < |recs'| && m != free ==> recs'[m].resource != leaseId;
  }

  /** After the only record holding a lease is freed, no record holds it. */
  lemma {:induction false} FirstWithRemoved(recs: seq<Record>, leaseId: string, n: nat, now: int)
    requires UniqueLeases(recs) && leaseId != BLANK_UUID
    requires n < |recs| && FirstWith(recs, leaseId, 0) == n
    ensures FirstWith(recs[n := FreeRecord(now)], leaseId, 0) == -1
  {
    var recs' := recs[n := FreeRecord(now)];
    assert forall m :: 0 <= m < |recs| && m != n ==> recs[m].resource != leaseId by {
      forall m | 0 <= m < |recs| && m != n ensures recs[m].resource != leaseId {
        if m < n {
        } else {
          assert recs[n].resource == leaseId;
        }
      }
    }
    assert forall m :: 0 <= m < |recs'| ==> recs'[m].resource != leaseId;
  }

  // ---------------------------------------------------------------------------
  // The index operations on the in-memory buffer

  /** Index.lookup on the buffer b: the first record holding the lease id
      decides; a missing one raises NoSuchLease, an unparsable one
      InvalidRecord, a stale one StaleLease. */
  function LookupIn(b: seq<byte>, lockspace: string, path: string, leaseId: string): (r: Result<LeaseInfo, Error>)
    requires |b| == INDEX_SIZE && IsAscii(leaseId)
    ensures r.Success? ==> r.value.lockspace == lockspace && r.value.resource == leaseId && r.value.path == path
    ensures r.Failure? ==> r.error.NoSuchLease? || r.error.StaleLease? || r.error.BadRecord?
  {
    var n := FindRecord(b, leaseId);
    if n == -1 then Failure(NoSuchLease(leaseId))
    else match ReadRecord(b, n)
      case Failure(e) => Failure(BadRecord(e))
      case Success(record) =>
        if record.state == Stale then Failure(StaleLease(leaseId, record.modified))
        else Success(LeaseInfo(lockspace, leaseId, path, LeaseOffset(n), record.modified))
  }

  /** On a well-formed buffer, lookup answers from the first record holding
      the id: none means NoSuchLease, a stale one StaleLease, otherwise the
      lease's area and modification time. */
  lemma LookupOnRecords(b: seq<byte>, recs: seq<Record>, lockspace: string, path: string, leaseId: string)
    requires Encodes(b, recs) && ValidLeaseId(leaseId)
    ensures var n := FirstWith(recs, leaseId, 0);
            LookupIn(b, lockspace, path, leaseId) ==
              if n == -1 then Failure(NoSuchLease(leaseId))
              else if recs[n].state == Stale then Failure(StaleLease(leaseId, recs[n].modified))
              else Success(LeaseInfo(lockspace, leaseId, path, LeaseOffset(n), recs[n].modified))
  {
    FindRecordIsFirstWith(b, recs, leaseId);
    var n := FindRecord(b, leaseId);
    if n != -1 {
      ReadEncoded(b, recs, n);
    }
  }

  /** The exception add raises for a lease id that is already in the index,
      given what read_record returned for its record. */
  function Refusal(d: Result<Record, InvalidRecord>, leaseId: string): (e: Error)
    ensures e.BadRecord? <==> d.Failure?
    ensures d.Success? ==> e == (if d.value.state == Stale then StaleLease(leaseId, d.value.modified)
                                 else LeaseExists(leaseId, d.value.modified))
  {
    match d
    case Failure(e) => BadRecord(e)
    case Success(rec) => if rec.state == Stale then StaleLease(leaseId, rec.modified) else LeaseExists(leaseId, rec.modified)
  }

  /** What add decides on the buffer b: the record it writes the lease into,
      or the exception it raises. */
  function AddPlan(b: seq<byte>, leaseId: string): (p: Result<nat, Error>)
    requires |b| == INDEX_SIZE && IsAscii(leaseId)
    ensures p.Success? ==> p.value < MAX_RECORDS && FindRecord(b, leaseId) == -1
    ensures p.Failure? ==> p.error.NoSpace? || p.error.LeaseExists? || p.error.StaleLease? || p.error.BadRecord?
  {
    var n := FindRecord(b, leaseId);
    if n != -1 then Failure(Refusal(ReadRecord(b, n), leaseId))
    else
      var free := FindRecord(b, BLANK_UUID);
      if free == -1 then Failure(NoSpace(leaseId)) else Success(free)
  }

  /** On a well-formed buffer, add refuses a lease that some record holds
      (StaleLease or LeaseExists by that record's state), fails with NoSpace
      when no record is free, and otherwise takes the first free record; the
      buffer it leaves is well-formed, holds the new record there and keeps
      lease ids unique. */
  lemma AddOnRecords(b: seq<byte>, recs: seq<Record>, leaseId: string, now: int)
    requires Encodes(b, recs) && ValidLeaseId(leaseId) && ValidTimestamp(now)
    ensures var n := FirstWith(recs, leaseId, 0);
            var free := FirstWith(recs, BLANK_UUID, 0);
            AddPlan(b, leaseId) ==
              if n != -1 then
                Failure(if recs[n].state == Stale then StaleLease(leaseId, recs[n].modified)
                        else LeaseExists(leaseId, recs[n].modified))
              else if free == -1 then Failure(NoSpace(leaseId))
              else Success(free)
    ensures |Bytes(Record(leaseId, Used, now))| == RECORD_SIZE
    ensures AddPlan(b, leaseId).Success? ==>
              var free := AddPlan(b, leaseId).value;
              Encodes(WithSlot(b, free, Bytes(Record(leaseId, Used, now))), recs[free := Record(leaseId, Used, now)]) &&
              (UniqueLeases(recs) ==> UniqueLeases(recs[free := Record(leaseId, Used, now)]))
  {
    FindRecordIsFirstWith(b, recs, leaseId);
    BlankUuidValid();
    FindRecordIsFirstWith(b, recs, BLANK_UUID);
    var n := FindRecord(b, leaseId);
    if n != -1 {
      ReadEncoded(b, recs, n);
    }
    var rec := Record(leaseId, Used, now);
    RecordPrefix(rec);
    var p := AddPlan(b, leaseId);
    if p.Success? {
      WithRecord(b, recs, p.value, rec);
      if UniqueLeases(recs) {
        AddKeepsUnique(recs, p.value, rec);
      }
    }
  }

  /** A lease that add accepts is then found by lookup, at the offset and
      with the modification time add reported. */
  lemma AddThenLookup(b: seq<byte>, recs: seq<Record>, lockspace: string, path: string, leaseId: string, now: int)
    requires Encodes(b, recs) && ValidLeaseId(leaseId) && ValidTimestamp(now)
    requires AddPlan(b, leaseId).Success?
    ensures |Bytes(Record(leaseId, Used, now))| == RECORD_SIZE
    ensures var free := AddPlan(b, leaseId).value;
            LookupIn(WithSlot(b, free, Bytes(Record(leaseId, Used, now))), lockspace, path, leaseId) ==
              Success(LeaseInfo(lockspace, leaseId, path, LeaseOffset(free), now))
  {
    AddOnRecords(b, recs, leaseId, now);
    var free := AddPlan(b, leaseId).value;
    var rec := Record(leaseId, Used, now);
    FirstWithAdded(recs, leaseId, free, rec);
    LookupOnRecords(WithSlot(b, free, Bytes(rec)), recs[free := rec], lockspace, path, leaseId);
  }

  /** On a well-formed buffer, remove frees the first record holding the
      lease and leaves a well-formed buffer. */
  lemma RemoveOnRecords(b: seq<byte>, recs: seq<Record>, leaseId: string, now: int)
    requires Encodes(b, recs) && ValidLeaseId(leaseId) && ValidTimestamp(now)
    ensures FindRecord(b, leaseId) == FirstWith(recs, leaseId, 0)
    ensures |Bytes(FreeRecord(now))| == RECORD_SIZE
    ensures var n := FindRecord(b, leaseId);
            n != -1 ==> Encodes(WithSlot(b, n, Bytes(FreeRecord(now))), recs[n := FreeRecord(now)]) &&
                        (UniqueLeases(recs) ==> UniqueLeases(recs[n := FreeRecord(now)]))
  {
    FindRecordIsFirstWith(b, recs, leaseId);
    BlankUuidValid();
    RecordPrefix(FreeRecord(now));
    var n := FindRecord(b, leaseId);
    if n != -1 {
      WithRecord(b, recs, n, FreeRecord(now));
      if UniqueLeases(recs) {
        RemoveKeepsUnique(recs, n, now);
      }
    }
  }

  /** When lease ids are unique, a removed lease is no longer found. */
  lemma RemoveThenLookup(b: seq<byte>, recs: seq<Record>, lockspace: string, path: string, leaseId: string, now: int)
    requires Encodes(b, recs) && UniqueLeases(recs) && ValidLeaseId(leaseId) && leaseId != BLANK_UUID
    requires ValidTimestamp(now) && FindRecord(b, leaseId) != -1
    ensures |Bytes(FreeRecord(now))| == RECORD_SIZE
    ensures LookupIn(WithSlot(b, FindRecord(b, leaseId), Bytes(FreeRecord(now))), lockspace, path, leaseId) ==
              Failure(NoSuchLease(leaseId))
  {
    FindRecordIsFirstWith(b, recs, leaseId);
    BlankUuidValid();
    var n := FindRecord(b, leaseId);
    WithRecord(b, recs, n, FreeRecord(now));
    FirstWithRemoved(recs, leaseId, n, now);
    LookupOnRecords(WithSlot(b, n, Bytes(FreeRecord(now))), recs[n := FreeRecord(now)], lockspace, path, leaseId);
  }

  // ---------------------------------------------------------------------------
  // Capacity of a formatted index

  /** Lease ids add can write, with the times of the adds. */
  predicate Addable(ids: seq<string>, times: seq<int>) {
    |ids| == |times| && forall i :: 0 <= i < |ids| ==> ValidLeaseId(ids[i]) && ValidTimestamp(times[i])
  }

  /** At most MAX_RECORDS such lease ids, none the blank id, pairwise distinct. */
  predicate NewLeases(ids: seq<string>, times: seq<int>) {
    Addable(ids, times) && |ids| <= MAX_RECORDS &&
    (forall i :: 0 <= i < |ids| ==> ids[i] != BLANK_UUID) &&
    (forall i, j :: 0 <= i < j < |ids| ==> ids[i] != ids[j])
  }

  /** The buffer after add(ids[0]) .. add(ids[k-1]) on b, the i-th at time
      times[i], or the exception of the first add that fails. */
  function AddEach(b: seq<byte>, ids: seq<string>, times: seq<int>, k: nat): (r: Result<seq<byte>, Error>)
    requires |b| == INDEX_SIZE && Addable(ids, times) && k <= |ids|
    ensures r.Success? ==> |r.value| == INDEX_SIZE
  {
    if k == 0 then Success(b)
    else
      match AddEach(b, ids, times, k - 1)
      case Failure(e) => Failure(e)
      case Success(c) =>
        match AddPlan(c, ids[k - 1])
        case Failure(e) => Failure(e)
        case Success(free) =>
          var rec := Record(ids[k - 1], Used, times[k - 1]);
          BytesLength(rec);
          Success(WithSlot(c, free, Bytes(rec)))
  }

  /** The records of a formatted index after the first k of those adds:
      records 0 .. k-1 hold the new leases, the others stay free. */
  function Filled(ids: seq<string>, times: seq<int>, now: int, k: nat): (recs: seq<Record>)
    requires k <= |ids| == |times| && k <= MAX_RECORDS
    ensures |recs| == MAX_RECORDS
  {
    seq(MAX_RECORDS, i requires 0 <= i < MAX_RECORDS =>
      if i < k then Record(ids[i], Used, times[i]) else FreeRecord(now))
  }

  /** In the records filled up to k, the next new id is absent, the first
      free record is k, and writing the next lease there fills up to k + 1. */
  lemma FilledNext(ids: seq<string>, times: seq<int>, now: int, k: nat)
    requires NewLeases(ids, times) && k < |ids|
    ensures var recs := Filled(ids, times, now, k);
            FirstWith(recs, ids[k], 0) == -1 && FirstWith(recs, BLANK_UUID, 0) == k &&
            recs[k := Record(ids[k], Used, times[k])] == Filled(ids, times, now, k + 1)
  {
    var recs := Filled(ids, times, now, k);
    assert recs[k] == FreeRecord(now);
    assert FirstWith(recs, ids[k], 0) == -1;
    assert FirstWith(recs, BLANK_UUID, 0) == k;
    assert recs[k := Record(ids[k], Used, times[k])] == Filled(ids, times, now, k + 1);
  }

  /** One add on an index filled up to record k: the new lease takes record k. */
  lemma FillStep(c: seq<byte>, now: int, ids: seq<string>, times: seq<int>, k: nat)
    requires NewLeases(ids, times) && k < |ids|
    requires Encodes(c, Filled(ids, times, now, k))
    ensures AddPlan(c, ids[k]) == Success(k)
  {
    FilledNext(ids, times, now, k);
    AddOnRecords(c, Filled(ids, times, now, k), ids[k], times[k]);
  }

  /** One more add in the sequence, when the sequence so far left c and the
      next add's decision on c is record n. */
  lemma AddEachStep(b: seq<byte>, ids: seq<string>, times: seq<int>, k: nat, c: seq<byte>, n: nat)
    requires |b| == INDEX_SIZE
    requires Addable(ids, times)
    requires 0 < k <= |ids|
    requires AddEach(b, ids, times, k - 1) == Success(c)
    requires AddPlan(c, ids[k - 1]) == Success(n)
    ensures |Bytes(Record(ids[k - 1], Used, times[k - 1]))| == RECORD_SIZE && n < MAX_RECORDS
    ensures AddEach(b, ids, times, k) == Success(WithSlot(c, n, Bytes(Record(ids[k - 1], Used, times[k - 1]))))
  {
    BytesLength(Record(ids[k - 1], Used, times[k - 1]));
  }

  /** The buffer f with the leases ids[0] .. ids[k-1] written into records
      0 .. k-1. */
  function WrittenUpTo(f: seq<byte>, ids: seq<string>, times: seq<int>, k: nat): (c: seq<byte>)
    requires |f| == INDEX_SIZE && Addable(ids, times) && k <= |ids| && k <= MAX_RECORDS
    ensures |c| == INDEX_SIZE
  {
    if k == 0 then f
    else
      var rec := Record(ids[k - 1], Used, times[k - 1]);
      assert ValidLeaseId(rec.resource);
      BytesLength(rec);
      WithSlot(WrittenUpTo(f, ids, times, k - 1), k - 1, Bytes(rec))
  }

  /** Written into an index of free records, the leases make it Filled. */
  lemma {:induction false} WrittenFilled(f: seq<byte>, now: int, ids: seq<string>, times: seq<int>, k: nat)
    requires NewLeases(ids, times) && k <= |ids|
    requires |f| == INDEX_SIZE && Encodes(f, Filled(ids, times, now, 0))
    ensures Encodes(WrittenUpTo(f, ids, times, k), Filled(ids, times, now, k))
  {
    if k > 0 {
      WrittenFilled(f, now, ids, times, k - 1);
      FilledNext(ids, times, now, k - 1);
      WithRecord(WrittenUpTo(f, ids, times, k - 1), Filled(ids, times, now, k - 1), k - 1,
                 Record(ids[k - 1], Used, times[k - 1]));
    }
  }

  /** After format, the adds of new lease ids succeed and write records
      0 .. k-1, in order. */
  lemma FillFrom(b: seq<byte>, now: int, ids: seq<string>, times: seq<int>, k: nat)
    requires |b| == INDEX_SIZE && ValidTimestamp(now) && NewLeases(ids, times) && k <= |ids|
    ensures |Bytes(FreeRecord(now))| == RECORD_SIZE
    ensures var f := FormattedUpTo(b, Bytes(FreeRecord(now)), MAX_RECORDS);
            AddEach(f, ids, times, k) == Success(WrittenUpTo(f, ids, times, k))
  {
    BytesLength(FreeRecord(now));
    FillsUpTo(b, now, ids, times, k);
  }

  /** The adds of ids[0] .. ids[k-1] after format write records 0 .. k-1. */
  predicate Fills(b: seq<byte>, now: int, ids: seq<string>, times: seq<int>, k: nat)
    requires |b| == INDEX_SIZE && ValidTimestamp(now) && Addable(ids, times) && k <= |ids| && k <= MAX_RECORDS
  {
    BytesLength(FreeRecord(now));
    var f := FormattedUpTo(b, Bytes(FreeRecord(now)), MAX_RECORDS);
    AddEach(f, ids, times, k) == Success(WrittenUpTo(f, ids, times, k))
  }

  lemma {:induction false} FillsUpTo(b: seq<byte>, now: int, ids: seq<string>, times: seq<int>, k: nat)
    requires |b| == INDEX_SIZE && ValidTimestamp(now) && NewLeases(ids, times) && k <= |ids|
    ensures Fills(b, now, ids, times, k)
  {
    if k > 0 {
      var j := k - 1;
      FillsUpTo(b, now, ids, times, j);
      FillNext(b, now, ids, times, j, k);
    } else {
      BytesLength(FreeRecord(now));
    }
  }

  /** The add after the first j after format extends the written prefix by
      record j. */
  lemma FillNext(b: seq<byte>, now: int, ids: seq<string>, times: seq<int>, j: nat, k: nat)
    requires |b| == INDEX_SIZE && ValidTimestamp(now) && NewLeases(ids, times)
    requires j < |ids|
    requires k == j + 1
    requires Fills(b, now, ids, times, j)
    ensures Fills(b, now, ids, times, k)
  {
    WrittenNext(b, now, ids, times, j);
    var f := FormattedUpTo(b, Bytes(FreeRecord(now)), MAX_RECORDS);
    AddEachStep(f, ids, times, k, WrittenUpTo(f, ids, times, j), j);
  }

  /** After format and the first k adds, add of the next one takes record k. */
  lemma WrittenNext(b: seq<byte>, now: int, ids: seq<string>, times: seq<int>, k: nat)
    requires |b| == INDEX_SIZE && ValidTimestamp(now) && NewLeases(ids, times) && k < |ids|
    ensures |Bytes(FreeRecord(now))| == RECORD_SIZE
    ensures var f := FormattedUpTo(b, Bytes(FreeRecord(now)), MAX_RECORDS);
            AddPlan(WrittenUpTo(f, ids, times, k), ids[k]) == Success(k)
  {
    FormattedFilled(b, now, ids, times);
    var f := FormattedUpTo(b, Bytes(FreeRecord(now)), MAX_RECORDS);
    WrittenFilled(f, now, ids, times, k);
    FillStep(WrittenUpTo(f, ids, times, k), now, ids, times, k);
  }

  /** A formatted index holds only free records. */
  lemma FormattedFilled(b: seq<byte>, now: int, ids: seq<string>, times: seq<int>)
    requires |b| == INDEX_SIZE && ValidTimestamp(now) && |ids| == |times|
    ensures |Bytes(FreeRecord(now))| == RECORD_SIZE
    ensures Encodes(FormattedUpTo(b, Bytes(FreeRecord(now)), MAX_RECORDS), Filled(ids, times, now, 0))
  {
    FormattedEncodes(b, now);
    assert Filled(ids, times, now, 0) == Repeat(FreeRecord(now), MAX_RECORDS);
  }

  /** After format, the k-th add of a new lease id succeeds and takes record
      k, for every k below MAX_RECORDS: the adds fill the index from its start. */
  lemma AddTakesNext(b: seq<byte>, now: int, ids: seq<string>, times: seq<int>, k: nat)
    requires |b| == INDEX_SIZE && ValidTimestamp(now) && NewLeases(ids, times) && k < |ids|
    ensures |Bytes(FreeRecord(now))| == RECORD_SIZE
    ensures var f := FormattedUpTo(b, Bytes(FreeRecord(now)), MAX_RECORDS);
            AddEach(f, ids, times, k).Success? && AddPlan(AddEach(f, ids, times, k).value, ids[k]) == Success(k)
  {
    FormattedFilled(b, now, ids, times);
    var f := FormattedUpTo(b, Bytes(FreeRecord(now)), MAX_RECORDS);
    FillFrom(b, now, ids, times, k);
    WrittenFilled(f, now, ids, times, k);
    FillStep(WrittenUpTo(f, ids, times, k), now, ids, times, k);
  }

  /** Once MAX_RECORDS new leases are added after format, add of any further
      lease id fails with NoSpace. */
  lemma FullIndexNoSpace(b: seq<byte>, now: int, ids: seq<string>, times: seq<int>, leaseId: string)
    requires |b| == INDEX_SIZE && ValidTimestamp(now) && NewLeases(ids, times) && |ids| == MAX_RECORDS
    requires ValidLeaseId(leaseId) && forall i :: 0 <= i < |ids| ==> ids[i] != leaseId
    ensures |Bytes(FreeRecord(now))| == RECORD_SIZE
    ensures var f := FormattedUpTo(b, Bytes(FreeRecord(now)), MAX_RECORDS);
            AddEach(f, ids, times, MAX_RECORDS).Success? &&
            AddPlan(AddEach(f, ids, times, MAX_RECORDS).value, leaseId) == Failure(NoSpace(leaseId))
  {
    FormattedFilled(b, now, ids, times);
    var f := FormattedUpTo(b, Bytes(FreeRecord(now)), MAX_RECORDS);
    FillFrom(b, now, ids, times, MAX_RECORDS);
    WrittenFilled(f, now, ids, times, MAX_RECORDS);
    FullFirstWith(ids, times, now, leaseId);
    AddOnRecords(WrittenUpTo(f, ids, times, MAX_RECORDS), Filled(ids, times, now, MAX_RECORDS), leaseId, now);
  }

  /** A full index holds neither a free record nor an id that was not added. */
  lemma FullFirstWith(ids: seq<string>, times: seq<int>, now: int, leaseId: string)
    requires NewLeases(ids, times) && |ids| == MAX_RECORDS
    requires forall i :: 0 <= i < |ids| ==> ids[i] != leaseId
    ensures FirstWith(Filled(ids, times, now, MAX_RECORDS), leaseId, 0) == -1
    ensures FirstWith(Filled(ids, times, now, MAX_RECORDS), BLANK_UUID, 0) == -1
  {
  }

  /** Distinct elements: the set of the first n has n members. */
  lemma {:induction false} DistinctCard(ids: seq<string>, n: nat)
    requires n <= |ids| && forall i, j :: 0 <= i < j < |ids| ==> ids[i] != ids[j]
    ensures |set i | 0 <= i < n :: ids[i]| == n
  {
    if n > 0 {
      DistinctCard(ids, n - 1);
      var s := set i | 0 <= i < n - 1 :: ids[i];
      assert (set i | 0 <= i < n :: ids[i]) == s + {ids[n - 1]};
      assert ids[n - 1] !in s;
    }
  }

  /** In the records of those adds, the last record of an added id is its
      own, and no other id has a lease. */
  lemma FilledLastLease(ids: seq<string>, times: seq<int>, now: int)
    requires NewLeases(ids, times)
    ensures var recs := Filled(ids, times, now, |ids|);
            (forall i :: 0 <= i < |ids| ==> LastLease(recs, ids[i], MAX_RECORDS) == i) &&
            (forall key :: LastLease(recs, key, MAX_RECORDS) != -1 ==> key in set i | 0 <= i < |ids| :: ids[i])
  {
    var recs := Filled(ids, times, now, |ids|);
    forall i | 0 <= i < |ids| ensures LastLease(recs, ids[i], MAX_RECORDS) == i {
      var j := LastLease(recs, ids[i], MAX_RECORDS);
      assert recs[i] == Record(ids[i], Used, times[i]);
      assert i <= j;
      assert recs[j] == if j < |ids| then Record(ids[j], Used, times[j]) else FreeRecord(now);
      assert recs[j] == Record(ids[j], Used, times[j]);
    }
    forall key | LastLease(recs, key, MAX_RECORDS) != -1 ensures key in set i | 0 <= i < |ids| :: ids[i] {
      var j := LastLease(recs, key, MAX_RECORDS);
      assert recs[j] == if j < |ids| then Record(ids[j], Used, times[j]) else FreeRecord(now);
      assert recs[j] == Record(ids[j], Used, times[j]);
    }
  }

  /** The dictionary of the records of the adds of ids: the added ids, each
      Used at its own record with the time of its add. */
  lemma FilledLeasesOfRecords(now: int, ids: seq<string>, times: seq<int>)
    requires NewLeases(ids, times)
    ensures var m := LeasesOf(Filled(ids, times, now, |ids|), MAX_RECORDS);
            m.Keys == (set i | 0 <= i < |ids| :: ids[i]) && |m| == |ids| &&
            forall i :: 0 <= i < |ids| ==> m[ids[i]] == LeaseEntry(LeaseOffset(i), "USED", times[i])
  {
    var recs := Filled(ids, times, now, |ids|);
    LeasesOfKeys(recs, MAX_RECORDS);
    FilledLastLease(ids, times, now);
    DistinctCard(ids, |ids|);
    var m := LeasesOf(recs, MAX_RECORDS);
    forall i | 0 <= i < |ids| ensures m[ids[i]] == LeaseEntry(LeaseOffset(i), "USED", times[i]) {
      assert recs[i] == Record(ids[i], Used, times[i]);
    }
  }

  /** leases on an index whose records are those of the adds of ids. */
  lemma FilledLeasesOf(c: seq<byte>, now: int, ids: seq<string>, times: seq<int>)
    requires NewLeases(ids, times)
    requires Encodes(c, Filled(ids, times, now, |ids|))
    ensures var r := LeasesUpTo(RecordResults(c), MAX_RECORDS);
            r.Success? && r.value.Keys == (set i | 0 <= i < |ids| :: ids[i]) && |r.value| == |ids| &&
            forall i :: 0 <= i < |ids| ==> r.value[ids[i]] == LeaseEntry(LeaseOffset(i), "USED", times[i])
  {
    var recs := Filled(ids, times, now, |ids|);
    RecordResultsEncoded(c, recs);
    LeasesOfRecords(RecordResults(c), recs, MAX_RECORDS);
    FilledLeasesOfRecords(now, ids, times);
  }

  /** After format and adds of new lease ids, leases lists exactly the added
      ids, each Used at its record with the time of its add: one entry per
      add, MAX_RECORDS of them once the index is full. */
  lemma FilledLeases(b: seq<byte>, now: int, ids: seq<string>, times: seq<int>)
    requires |b| == INDEX_SIZE && ValidTimestamp(now) && NewLeases(ids, times)
    ensures |Bytes(FreeRecord(now))| == RECORD_SIZE
    ensures var f := FormattedUpTo(b, Bytes(FreeRecord(now)), MAX_RECORDS);
            AddEach(f, ids, times, |ids|).Success? &&
            var r := LeasesUpTo(RecordResults(AddEach(f, ids, times, |ids|).value), MAX_RECORDS);
            r.Success? && r.value.Keys == (set i | 0 <= i < |ids| :: ids[i]) && |r.value| == |ids| &&
            forall i :: 0 <= i < |ids| ==> r.value[ids[i]] == LeaseEntry(LeaseOffset(i), "USED", times[i])
  {
    FormattedFilled(b, now, ids, times);
    var f := FormattedUpTo(b, Bytes(FreeRecord(now)), MAX_RECORDS);
    FillFrom(b, now, ids, times, |ids|);
    WrittenFilled(f, now, ids, times, |ids|);
    FilledLeasesOf(WrittenUpTo(f, ids, times, |ids|), now, ids, times);
  }

  // ---------------------------------------------------------------------------
  // The index object

  class Index {
    const lockspace: string
    const file: DirectFile
    /** The in-memory copy of the index. */
    const index: IndexBuffer

    /** The buffer has its size, and the file holds the whole index. */
    predicate Valid()
      reads file
    {
      index.buf.Length == INDEX_SIZE && INDEX_SIZE <= |file.contents|
    }

    /** Index.__init__: load the index from the start of the file. */
    constructor (lockspace: string, file: DirectFile)
      requires INDEX_SIZE <= |file.contents|
      modifies file
      ensures Valid() && fresh(index) && fresh(index.buf)
      ensures this.lockspace == lockspace && this.file == file
      ensures file.contents == old(file.contents) && file.durable == old(file.durable)
      ensures index.buf[..] == file.contents[..INDEX_SIZE]
      ensures file.position == INDEX_SIZE
    {
      this.lockspace := lockspace;
      this.file := file;
      index := new IndexBuffer(file);
    }

    /** Index.lookup. On a well-formed buffer and a well-formed lease id the
        answer is decided by the first record holding the id. */
    function Lookup(leaseId: string): (r: Result<LeaseInfo, Error>)
      requires Valid() && IsAscii(leaseId)
      reads file, index.buf
      ensures r.Success? ==> r.value.lockspace == lockspace && r.value.resource == leaseId && r.value.path == file.path
      ensures WellFormed(index.buf[..]) && ValidLeaseId(leaseId) ==>
                var recs := Records(index.buf[..]);
                var n := FirstWith(recs, leaseId, 0);
                r == if n == -1 then Failure(NoSuchLease(leaseId))
                     else if recs[n].state == Stale then Failure(StaleLease(leaseId, recs[n].modified))
                     else Success(LeaseInfo(lockspace, leaseId, file.path, LeaseOffset(n), recs[n].modified))
    {
      var b := index.buf[..];
      assert WellFormed(b) && ValidLeaseId(leaseId) ==>
               var recs := Records(b);
               var n := FirstWith(recs, leaseId, 0);
               LookupIn(b, lockspace, file.path, leaseId) ==
                 if n == -1 then Failure(NoSuchLease(leaseId))
                 else if recs[n].state == Stale then Failure(StaleLease(leaseId, recs[n].modified))
                 else Success(LeaseInfo(lockspace, leaseId, file.path, LeaseOffset(n), recs[n].modified)) by {
        if WellFormed(b) && ValidLeaseId(leaseId) {
          LookupOnRecords(b, Records(b), lockspace, file.path, leaseId);
        }
      }
      LookupIn(b, lockspace, file.path, leaseId)
    }

    /** Index.add: refuse a lease that is already present, otherwise write it
        with the current time into the first free record and dump that
        record's block. now is the time.time() of the call. */
    method Add(leaseId: string, now: int) returns (r: Result<LeaseInfo, Error>)
      requires Valid() && IsAscii(leaseId) && |leaseId| <= 49 && ValidTimestamp(now)
      modifies index.buf, file
      ensures Valid()
      ensures var p := AddPlan(old(index.buf[..]), leaseId);
              p.Failure? ==>
                r == Failure(p.error) && index.buf[..] == old(index.buf[..]) &&
                file.contents == old(file.contents) && file.durable == old(file.durable) &&
                file.position == old(file.position)
      ensures var p := AddPlan(old(index.buf[..]), leaseId);
              p.Success? ==>
                var start := BlockStart(RecordOffset(p.value));
                |Bytes(Record(leaseId, Used, now))| == RECORD_SIZE &&
                index.buf[..] == WithSlot(old(index.buf[..]), p.value, Bytes(Record(leaseId, Used, now))) &&
                start + BLOCK_SIZE <= INDEX_SIZE &&
                file.contents == Overwrite(old(file.contents), start, index.buf[start..start + BLOCK_SIZE]) &&
                file.durable == file.contents && file.position == start + BLOCK_SIZE &&
                r == Success(LeaseInfo(lockspace, leaseId, file.path, LeaseOffset(p.value), now))
    {
      var p := AddPlan(index.buf[..], leaseId);
      if p.Failure? {
        return Failure(p.error);
      }
      var record := Record(leaseId, Used, now);
      BytesLength(record);
      ghost var before := index.buf[..];
      index.WriteRecord(p.value, record);
      assert index.buf[..] == WithSlot(before, p.value, Bytes(record));
      index.DumpRecord(p.value, file);
      r := Success(LeaseInfo(lockspace, leaseId, file.path, LeaseOffset(p.value), record.modified));
    }

    /** Index.remove: mark the first record holding the lease free, with the
        blank id and the current time, and dump its block. */
    method Remove(leaseId: string, now: int) returns (r: Result<(), Error>)
      requires Valid() && IsAscii(leaseId) && ValidTimestamp(now)
      modifies index.buf, file
      ensures Valid()
      ensures var n := FindRecord(old(index.buf[..]), leaseId);
              n == -1 ==>
                r == Failure(NoSuchLease(leaseId)) && index.buf[..] == old(index.buf[..]) &&
                file.contents == old(file.contents) && file.durable == old(file.durable) &&
                file.position == old(file.position)
      ensures var n := FindRecord(old(index.buf[..]), leaseId);
              n != -1 ==>
                var start := BlockStart(RecordOffset(n));
                |Bytes(FreeRecord(now))| == RECORD_SIZE &&
                r == Success(()) &&
                index.buf[..] == WithSlot(old(index.buf[..]), n, Bytes(FreeRecord(now))) &&
                start + BLOCK_SIZE <= INDEX_SIZE &&
                file.contents == Overwrite(old(file.contents), start, index.buf[start..start + BLOCK_SIZE]) &&
                file.durable == file.contents && file.position == start + BLOCK_SIZE
    {
      var n := FindRecord(index.buf[..], leaseId);
      if n == -1 {
        return Failure(NoSuchLease(leaseId));
      }
      var record := FreeRecord(now);
      BytesLength(record);
      ghost var before := index.buf[..];
      index.WriteRecord(n, record);
      assert index.buf[..] == WithSlot(before, n, Bytes(record));
      index.DumpRecord(n, file);
      r := Success(());
    }

    /** Index.format: write a free record into every slot, leave the metadata
        blocks as they were, and dump the whole buffer. */
    method Format(now: int)
      requires Valid() && ValidTimestamp(now)
      modifies index.buf, file
      ensures Valid()
      ensures |Bytes(FreeRecord(now))| == RECORD_SIZE
      ensures index.buf[..] == FormattedUpTo(old(index.buf[..]), Bytes(FreeRecord(now)), MAX_RECORDS)
      ensures file.contents == Overwrite(old(file.contents), 0, index.buf[..]) && file.durable == file.contents
      ensures file.position == INDEX_SIZE
    {
      var record := FreeRecord(now);
      BytesLength(record);
      ghost var b := index.buf[..];
      ghost var d := Bytes(record);
      var recnum := 0;
      assert FormattedUpTo(b, d, 0) == b;
      while recnum < MAX_RECORDS
        invariant 0 <= recnum <= MAX_RECORDS
        invariant index.buf[..] == FormattedUpTo(b, d, recnum)
        invariant file.contents == old(file.contents)
      {
        index.WriteRecord(recnum, record);
        FormatStep(b, d, recnum);
        recnum := recnum + 1;
      }
      index.Dump(file);
    }

    /** Index.leases: the dictionary of all records that are not free, keyed
        by lease id; the first record that does not parse raises. */
    method Leases() returns (r: Result<map<string, LeaseEntry>, Error>)
      requires Valid()
      ensures r == LeasesUpTo(RecordResults(index.buf[..]), MAX_RECORDS)
    {
      var b := index.buf[..];
      ghost var rs := RecordResults(b);
      var leases := map[];
      var recnum := 0;
      while recnum < MAX_RECORDS
        invariant 0 <= recnum <= MAX_RECORDS
        invariant LeasesUpTo(rs, recnum) == Success(leases)
      {
        var record := ReadRecord(b, recnum);
        assert rs[recnum] == record;
        if record.Failure? {
          LeasesFailure(rs, recnum, leases);
          return Failure(BadRecord(record.error));
        }
        LeasesStep(rs, recnum, leases, record.value);
        if record.value.state != Free {
          leases := leases[record.value.resource := Entry(recnum, record.value)];
        }
        recnum := recnum + 1;
      }
      r := Success(leases);
    }
  }
}
