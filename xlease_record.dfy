/** One lease record of the index: a fixed-width 64-byte text line

      <resource>:<state>:<timestamp>:<padding>\n

    for example  34e5a2a8-1a4d-45a0-a4b2-c88157f7a5a9:U:1479914506:0000000000000\n
    and its serialiser (Record.bytes) and validating parser (Record.frombytes). */
module XleaseRecord {
  import opened Wrappers
  import opened Text
  import opened XleaseLayout

  const COLON: byte := 58     // RECORD_SEP, b":"
  const NEWLINE: byte := 10   // RECORD_TERM, b"\n"
  const ZERO: byte := 48      // b"0", the padding byte

  /** RECORD_USED (b"U"): a sanlock resource exists for the record;
      RECORD_FREE (b"F"): the slot is not used;
      RECORD_STALE (b"S"): an add or remove was interrupted; rebuild from storage. */
  datatype State = Used | Free | Stale

  function StateByte(s: State): byte {
    match s
    case Used => 85   // 'U'
    case Free => 70   // 'F'
    case Stale => 83  // 'S'
  }

  /** The names reported by Index.leases (RECORD_STATES). */
  function StateName(s: State): string {
    match s
    case Used => "USED"
    case Free => "FREE"
    case Stale => "STALE"
  }

  /** Parses the state field: exactly one of the three state bytes. */
  function ParseState(field: seq<byte>): (r: Option<State>)
    ensures r.None? <==> field != [StateByte(Used)] && field != [StateByte(Free)] && field != [StateByte(Stale)]
    ensures r.Some? ==> field == [StateByte(r.value)]
  {
    if field == [StateByte(Used)] then Some(Used)
    else if field == [StateByte(Free)] then Some(Free)
    else if field == [StateByte(Stale)] then Some(Stale)
    else None
  }

  lemma ParseStateByte(s: State)
    ensures ParseState([StateByte(s)]) == Some(s)
  {
  }

  /** Placeholder lease id of free records. */
  const BLANK_UUID: string := "00000000-0000-0000-0000-000000000000"

  datatype Record = Record(resource: string, state: State, modified: int)

  datatype InvalidReason = IncorrectLength | IncorrectFieldCount | BadResource | BadState | BadTimestamp

  /** The InvalidRecord exception: the reason and the offending bytes. */
  datatype InvalidRecord = InvalidRecord(reason: InvalidReason, record: seq<byte>)

  /** A lease id as the index expects one: a 36-character ASCII UUID string
      that contains no field separator. */
  predicate ValidLeaseId(id: string) {
    |id| == 36 && IsAscii(id) && forall i :: 0 <= i < |id| ==> id[i] != ':'
  }

  /** A timestamp that "%010d" renders in exactly ten digits. */
  predicate ValidTimestamp(t: int) {
    0 <= t < Pow10(10)
  }

  predicate ValidRecord(r: Record) {
    ValidLeaseId(r.resource) && ValidTimestamp(r.modified)
  }

  lemma BlankUuidValid()
    ensures ValidLeaseId(BLANK_UUID)
  {
  }

  /** Record.bytes: resource, state and "%010d" timestamp separated by colons,
      then "0" padding up to RECORD_SIZE - 1 bytes and the terminating newline.
      A record whose fields are too wide gets no padding and is longer than
      RECORD_SIZE, as in the source. */
  function Bytes(r: Record): (data: seq<byte>)
    requires IsAscii(r.resource)
  {
    var ts := FormatZeroPadded(r.modified, 10);
    assert IsAscii(ts);
    var data := EncodeAscii(r.resource) + [COLON, StateByte(r.state), COLON] + EncodeAscii(ts) + [COLON];
    var padding := RECORD_SIZE - |data| - 1;
    data + Repeat(ZERO, if padding > 0 then padding else 0) + [NEWLINE]
  }

  /** Record.bytes fills exactly RECORD_SIZE bytes for every ASCII resource of
      up to 49 characters and every ten-digit timestamp; a longer resource
      makes the record overflow. */
  lemma {:induction false} BytesLength(r: Record)
    requires IsAscii(r.resource) && ValidTimestamp(r.modified)
    ensures |Bytes(r)| == if |r.resource| <= 49 then RECORD_SIZE else |r.resource| + 15
  {
    FormatZeroPaddedWidth(r.modified, 10);
  }

  /** The colons of a record sit at fixed offsets 36, 38 and 49, and nowhere else. */
  predicate ColonShape(s: seq<byte>) {
    |s| == RECORD_SIZE &&
    forall i :: 0 <= i < |s| ==> (s[i] == COLON <==> i == 36 || i == 38 || i == 49)
  }

  /** The byte layout of a valid record. */
  lemma {:induction false} BytesLayout(r: Record)
    requires ValidRecord(r)
    ensures |Bytes(r)| == RECORD_SIZE
    ensures Bytes(r)[RECORD_SIZE - 1] == NEWLINE
    ensures Bytes(r)[..36] == EncodeAscii(r.resource)
    ensures Bytes(r)[37..38] == [StateByte(r.state)]
    ensures Bytes(r)[39..49] == EncodeAscii(FormatZeroPadded(r.modified, 10))
    ensures forall i :: 50 <= i < RECORD_SIZE - 1 ==> Bytes(r)[i] == ZERO
    ensures ColonShape(Bytes(r))
  {
    var ts := FormatZeroPadded(r.modified, 10);
    FormatZeroPaddedWidth(r.modified, 10);
    var id := EncodeAscii(r.resource);
    var t := EncodeAscii(ts);
    forall i | 0 <= i < 36 ensures id[i] != COLON {
      assert r.resource[i] != ':';
    }
    forall i | 0 <= i < 10 ensures t[i] != COLON {
      assert IsDigit(ts[i]);
    }
    FieldsLayout(id, StateByte(r.state), t);
    assert Bytes(r) == id + [COLON, StateByte(r.state), COLON] + t + [COLON] + Repeat(ZERO, 13) + [NEWLINE];
  }

  /** Where the fields of a record land: a 36-byte id, a state byte and ten
      timestamp bytes, none of them a colon, joined by colons and padded. */
  lemma {:induction false} FieldsLayout(id: seq<byte>, st: byte, t: seq<byte>)
    requires |id| == 36 && |t| == 10 && st != COLON
    requires forall i :: 0 <= i < 36 ==> id[i] != COLON
    requires forall i :: 0 <= i < 10 ==> t[i] != COLON
    ensures var b := id + [COLON, st, COLON] + t + [COLON] + Repeat(ZERO, 13) + [NEWLINE];
            |b| == RECORD_SIZE && b[RECORD_SIZE - 1] == NEWLINE &&
            b[..36] == id && b[37..38] == [st] && b[39..49] == t &&
            (forall i :: 50 <= i < RECORD_SIZE - 1 ==> b[i] == ZERO) && ColonShape(b)
  {
    var b := id + [COLON, st, COLON] + t + [COLON] + Repeat(ZERO, 13) + [NEWLINE];
    assert b[..36] == id;
    assert b[37..38] == [st];
    assert b[39..49] == t;
    forall i | 0 <= i < RECORD_SIZE ensures (b[i] == COLON <==> i == 36 || i == 38 || i == 49) {
      if i < 36 {
        assert b[i] == id[i];
      } else if 39 <= i < 49 {
        assert b[i] == t[i - 39];
      }
    }
  }

  /** Record.frombytes. The checks come in the source's order: the length, the
      number of ':'-separated fields (split with maxsplit 4 must give exactly
      four, so the record holds exactly three colons), the resource decodes as
      ASCII, the state is one byte U, F or S, and the timestamp parses with
      int(). The fourth field (padding and newline) is not inspected. */
  function FromBytes(record: seq<byte>): (r: Result<Record, InvalidRecord>)
    ensures |record| != RECORD_SIZE <==> r == Failure(InvalidRecord(IncorrectLength, record))
    ensures r.Failure? ==> r.error.record == record
    ensures r.Success? ==> |record| == RECORD_SIZE && IsAscii(r.value.resource)
  {
    if |record| != RECORD_SIZE then Failure(InvalidRecord(IncorrectLength, record))
    else
      var fields := Split(record, COLON, 4);
      if |fields| != 4 then Failure(InvalidRecord(IncorrectFieldCount, record))
      else FromFields(fields[0], fields[1], fields[2], record)
  }

  /** 64 bytes are rejected for their number of fields exactly when they do not
      hold three colons; a record that decodes holds three. */
  lemma FieldCount(record: seq<byte>)
    requires |record| == RECORD_SIZE
    ensures FromBytes(record) == Failure(InvalidRecord(IncorrectFieldCount, record)) <==> Count(record, COLON) != 3
    ensures FromBytes(record).Success? ==> Count(record, COLON) == 3
  {
    SplitLength(record, COLON, 4);
  }

  /** The field checks of frombytes, once the record has split into four fields. */
  function FromFields(resource: seq<byte>, state: seq<byte>, modified: seq<byte>, record: seq<byte>)
    : (r: Result<Record, InvalidRecord>)
    ensures r.Failure? ==> r.error.record == record && r.error.reason in {BadResource, BadState, BadTimestamp}
    ensures r.Success? ==> IsAscii(r.value.resource) && EncodeAscii(r.value.resource) == resource
    ensures r.Success? ==> state == [StateByte(r.value.state)]
    ensures r.Success? ==> ParseInt(ToChars(modified)) == Some(r.value.modified)
  {
    match DecodeAscii(resource)
    case None => Failure(InvalidRecord(BadResource, record))
    case Some(id) =>
      match ParseState(state)
      case None => Failure(InvalidRecord(BadState, record))
      case Some(st) =>
        match ParseInt(ToChars(modified))
        case None => Failure(InvalidRecord(BadTimestamp, record))
        case Some(m) => Success(Record(id, st, m))
  }

  /** How frombytes decides on 64 bytes shaped like a record. */
  lemma FromBytesShaped(b: seq<byte>)
    requires ColonShape(b)
    ensures FromBytes(b) == FromFields(b[..36], b[37..38], b[39..49], b)
  {
    SplitColonShape(b);
  }

  /** Split of any 64 bytes shaped like a record: the four fields are the bytes
      before offset 36, the state byte, the ten timestamp bytes and the rest. */
  lemma {:induction false} SplitColonShape(s: seq<byte>)
    requires ColonShape(s)
    ensures Split(s, COLON, 4) == [s[..36], s[37..38], s[39..49], s[50..]]
  {
    SplitFromAt(s, COLON, 0, 4, 36);
    SplitFromAt(s, COLON, 37, 3, 38);
    SplitFromAt(s, COLON, 39, 2, 49);
    SplitFromNone(s, COLON, 50, 1);
    assert s[0..36] == s[..36];
  }

  /** The field checks accept what bytes() writes into the first three fields. */
  lemma FromFieldsEncoded(id: string, st: State, m: int, record: seq<byte>)
    requires IsAscii(id) && ValidTimestamp(m)
    ensures IsAscii(FormatZeroPadded(m, 10))
    ensures FromFields(EncodeAscii(id), [StateByte(st)], EncodeAscii(FormatZeroPadded(m, 10)), record)
            == Success(Record(id, st, m))
  {
    EncodeDecodeAscii(id);
    ParseStateByte(st);
    var ts := FormatZeroPadded(m, 10);
    assert IsAscii(ts);
    CharsOfAscii(ts);
    ParseZeroPadded(m, 10);
    assert ParseInt(ToChars(EncodeAscii(ts))) == Some(m);
  }

  /** frombytes(r.bytes()) gives back the same resource, state and modified time. */
  lemma {:induction false} RoundTrip(r: Record)
    requires ValidRecord(r)
    ensures FromBytes(Bytes(r)) == Success(r)
  {
    var b := Bytes(r);
    BytesLayout(r);
    FromBytesShaped(b);
    FromFieldsEncoded(r.resource, r.state, r.modified, b);
  }

  /** A valid encoding with a byte of the resource replaced by a non-ASCII byte
      is rejected as an undecodable resource. */
  lemma NonAsciiResourceRejected(r: Record, k: nat, x: byte)
    requires ValidRecord(r) && k < 36 && x >= 128
    ensures FromBytes(Bytes(r)[k := x]) == Failure(InvalidRecord(BadResource, Bytes(r)[k := x]))
  {
    var b := Bytes(r)[k := x];
    BytesLayout(r);
    assert ColonShape(b);
    SplitColonShape(b);
    assert b[..36][k] == x;
  }

  /** A valid encoding whose state byte is replaced by anything but U, F, S or ':'
      is rejected for its state. */
  lemma BadStateRejected(r: Record, x: byte)
    requires ValidRecord(r) && x != COLON
    requires x != StateByte(Used) && x != StateByte(Free) && x != StateByte(Stale)
    ensures FromBytes(Bytes(r)[37 := x]) == Failure(InvalidRecord(BadState, Bytes(r)[37 := x]))
  {
    var b := Bytes(r)[37 := x];
    BytesLayout(r);
    assert ColonShape(b);
    SplitColonShape(b);
    assert b[..36] == Bytes(r)[..36];
    EncodeDecodeAscii(r.resource);
    assert b[37..38] == [x];
  }

  /** A valid encoding with a non-digit inside its timestamp is rejected for the
      timestamp. */
  lemma BadTimestampRejected(r: Record, k: nat, x: byte)
    requires ValidRecord(r) && 40 <= k < 48 && x != COLON && !(48 <= x <= 57)
    ensures FromBytes(Bytes(r)[k := x]) == Failure(InvalidRecord(BadTimestamp, Bytes(r)[k := x]))
  {
    var b := Bytes(r)[k := x];
    PatchedTimestamp(r, k, x);
    FromBytesShaped(b);
    EncodeDecodeAscii(r.resource);
    ParseStateByte(r.state);
  }

  /** Writing such a byte into the timestamp keeps the colons, the resource and
      the state where they were, and leaves a timestamp int() refuses. */
  lemma PatchedTimestamp(r: Record, k: nat, x: byte)
    requires ValidRecord(r) && 40 <= k < 48 && x != COLON && !(48 <= x <= 57)
    ensures var b := Bytes(r)[k := x];
            ColonShape(b) && b[..36] == EncodeAscii(r.resource) && b[37..38] == [StateByte(r.state)] &&
            ParseInt(ToChars(b[39..49])) == None
  {
    var b := Bytes(r)[k := x];
    BytesLayout(r);
    assert ColonShape(b);
    assert b[..36] == Bytes(r)[..36];
    assert b[37..38] == Bytes(r)[37..38];
    var ts := FormatZeroPadded(r.modified, 10);
    FormatZeroPaddedWidth(r.modified, 10);
    var e := EncodeAscii(ts);
    assert b[39] == e[0] && b[48] == e[9];
    assert IsDigit(ts[0]) && IsDigit(ts[9]);
    var t := ToChars(b[39..49]);
    assert t[0] == ts[0] && t[9] == ts[9];
    assert t[k - 39] as int == x as int;
    NotAnInteger(t, k - 39);
  }

  /** Digits on both ends and a non-digit inside: int() refuses it. */
  lemma NotAnInteger(t: string, j: nat)
    requires 0 < j < |t| - 1 && IsDigit(t[0]) && IsDigit(t[|t| - 1]) && !IsDigit(t[j])
    ensures ParseInt(t) == None
  {
    assert !IsSpace(t[0]) && !IsSpace(t[|t| - 1]);
    assert TrimLeft(t) == t;
    assert TrimRight(t) == t;
    assert t[0] != '-' && t[0] != '+';
    assert !AllDigits(t);
  }

  /** An extra colon anywhere in a valid encoding makes five fields. */
  lemma ExtraColonRejected(r: Record, k: nat)
    requires ValidRecord(r) && k < RECORD_SIZE && k != 36 && k != 38 && k != 49
    ensures FromBytes(Bytes(r)[k := COLON]) == Failure(InvalidRecord(IncorrectFieldCount, Bytes(r)[k := COLON]))
  {
    var b := Bytes(r);
    BytesLayout(r);
    var c := b[k := COLON];
    assert c == b[..k] + [COLON] + b[k + 1..];
    assert b == b[..k] + [b[k]] + b[k + 1..];
    CountAppend(b[..k] + [COLON], b[k + 1..], COLON);
    CountAppend(b[..k], [COLON], COLON);
    CountAppend(b[..k] + [b[k]], b[k + 1..], COLON);
    CountAppend(b[..k], [b[k]], COLON);
    assert Count([COLON], COLON) == 1;
    assert Count([b[k]], COLON) == 0;
    ColonCount(r);
    FieldCount(c);
  }

  lemma ColonCount(r: Record)
    requires ValidRecord(r)
    ensures Count(Bytes(r), COLON) == 3
  {
    var b := Bytes(r);
    BytesLayout(r);
    SplitColonShape(b);
    SplitLength(b, COLON, 4);
  }
}
