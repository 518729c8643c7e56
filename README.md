# vdsm external-lease index, IP address validation and gateway selection

This project models three parts of vdsm in Dafny and proves their properties.

**The external-lease index (`lib/vdsm/storage/xlease.py`).** The xleases volume maps a sanlock
lease name (a UUID string) to a fixed lease area. The volume starts with an index:
- 4 metadata blocks;
- then 4000 records of 64 bytes each, one per slot, in the text format
  `<uuid>:<U|F|S>:<%010d timestamp>:<zero padding>\n`.

Record n stands for the lease area at `LEASE_BASE + n * LEASE_SIZE`. The model covers the
record codec (`Record.bytes` and `Record.frombytes`), the layout arithmetic, the in-memory
index buffer and the `Index` operations (`lookup`, `add`, `remove`, `format`, `leases`). It
also covers the `DirectFile` loops that retry partial reads and writes.

The buffer is an `array<byte>` of `INDEX_SIZE` bytes inside the `IndexBuffer` class, and
`write_record` updates it in place. The file is a `DirectFile` object with three fields:
- its current bytes;
- the bytes made durable by the last fsync;
- the file position.

The pure readers (`find_record`, `read_record`) are functions of the buffer's contents.

A buffer is well-formed when every slot holds the encoding of a valid record. A valid record
has a 36-character ASCII id with no `:` and a timestamp of at most ten digits. On such a buffer,
and for a lease id that is itself 36 ASCII characters without `:`, the model proves that
`find_record`, a substring search over the whole buffer, always lands on a record boundary. It
then reduces every `Index` operation on such an id to a question about the sequence of records.
For other ids the search can match inside a record, and no such result is claimed.

**IP address configuration (`lib/vdsm/network/ip/address.py`).** This part covers:
- the `IPv4` and `IPv6` constructors, with their validation rules in the order the source
  checks them;
- their truth values;
- the contiguous-netmask bit test of `validateNetmask`, on 32-bit vectors;
- the `addr/prefixlen` split of `IPv6.validateAddress`;
- `validatePrefixlen`;
- `prefix2netmask`.

The socket address parsers are parameters of the model (`Sockets`).

**Routes (`lib/vdsm/network/netinfo/routes.py`).** This part covers `get_gateway`, which
filters a device's routes for default routes and picks the gateway. It also covers `get_routes`,
which groups routes by output device. A route is an attribute dictionary: each attribute is an
`Option`, and `None` stands for a missing key. The routes the netlink layer would report are
the input sequence of `GetRoutes`.

Files:
- `wrappers.dfy`: `Option` and `Result`.
- `text.dfy`: bytes, ASCII encoding, `split`, decimal digits, `"%010d"` and `int()`.
- `xlease_layout.dfy`: constants and offsets.
- `xlease_record.dfy`: the record codec.
- `direct_file.dfy`: `DirectFile`.
- `index_buffer.dfy`: `IndexBuffer`.
- `xlease_index.dfy`: `Index`.
- `ip_address.dfy`.
- `routes.dfy`.

## Model

| member | source | states |
|---|---|---|
| Text.DecodeAscii | lib/vdsm/storage/xlease.py:232-235 | ASCII decoding succeeds exactly when every byte is below 128, and re-encoding the result gives back the bytes |
| Text.EncodeDecodeAscii | lib/vdsm/storage/xlease.py:232-235 | decoding the ASCII encoding of an ASCII string gives back the string |
| Text.Split | lib/vdsm/storage/xlease.py:228 | `split(sep, maxsplit)` yields between 1 and maxsplit + 1 parts, and the whole input when maxsplit is 0 |
| Text.SplitLength | lib/vdsm/storage/xlease.py:227-230 | the number of parts is one more than the number of separators, capped at maxsplit + 1 |
| Text.SplitOnce | lib/vdsm/network/ip/address.py:134 | `split('/', 1)` is the whole text when there is no '/', and otherwise the text before and after the first '/' |
| Text.DecimalDigitsValue | lib/vdsm/storage/xlease.py:273 | the decimal digits of n read back as n |
| Text.FormatZeroPaddedWidth | lib/vdsm/storage/xlease.py:273 | `"%010d"` of a number below 10^10 is exactly ten digits |
| Text.FormatZeroPadded | lib/vdsm/storage/xlease.py:273 | `"%0wd"` of a number is made of digits and a sign only; its width is stated by FormatZeroPaddedWidth and its value read back by ParseZeroPadded |
| Text.ParseDigits | lib/vdsm/storage/xlease.py:240-243 | `int()` of a non-empty run of ASCII digits is its decimal value |
| Text.ParseZeroPadded | lib/vdsm/storage/xlease.py:240-243 | `int()` reads `"%0wd"` of m back as m, leading zeros included |
| Text.ParseInt | lib/vdsm/network/ip/address.py:146 | `int()` of a `str`; what it accepts and returns is stated by ParseDigits, ParseSigned, ParseStripsSpace, ParseNoDigit and ParseZeroPadded |
| Text.ParseSigned | lib/vdsm/network/ip/address.py:146 | `int()` of a '+' or '-' followed by digits is the digits' value with that sign |
| Text.ParseStripsSpace | lib/vdsm/network/ip/address.py:146 | `int()` gives the same answer when whitespace is added at either end |
| Text.ParseNoDigit | lib/vdsm/network/ip/address.py:146 | `int()` refuses any text holding no decimal digit, the empty text included |
| XleaseLayout.RecordNumber | lib/vdsm/storage/xlease.py:508-509 | `_record_number` maps an offset to the record whose 64 bytes contain it |
| XleaseLayout.RecordOffset | lib/vdsm/storage/xlease.py:505-506 | `_record_offset` of a record number below 4000 lies after the metadata, with the whole record inside the index; RecordNumberOfOffset shows `_record_number` inverts it |
| XleaseLayout.BlockStart | lib/vdsm/storage/xlease.py:482 | `offset - offset % BLOCK_SIZE` is block-aligned and is the start of the block holding offset |
| XleaseLayout.RecordNumberOfOffset | lib/vdsm/storage/xlease.py:505-509 | `_record_number(_record_offset(n)) == n` |
| XleaseLayout.RecordNumberInside | lib/vdsm/storage/xlease.py:505-509 | every byte inside record n maps back to record n |
| XleaseLayout.RecordWithinOneBlock | lib/vdsm/storage/xlease.py:477-490 | record n lies inside block 4 + n / 8, after the metadata and within the index |
| XleaseLayout.RecordTableBlocks | lib/vdsm/storage/xlease.py:46-52 | records 0-3999 fill exactly blocks 4-503, and the index is 504 blocks and ends before the first lease |
| XleaseLayout.LeaseAreas | lib/vdsm/storage/xlease.py:428-429 | lease 0 starts at LEASE_BASE, lease areas are block-aligned, lie after the index and do not overlap |
| XleaseLayout.LeaseOffset | lib/vdsm/storage/xlease.py:428-429 | `_lease_offset`; LeaseAreas states that its areas are aligned, disjoint and after the index |
| XleaseRecord.ParseState | lib/vdsm/storage/xlease.py:237-238 | a state field is accepted exactly when it is one of U, F and S, and then it is that state's byte |
| XleaseRecord.BytesLength | lib/vdsm/storage/xlease.py:262-277 | `bytes()` is 64 bytes for ids of up to 49 characters, and longer otherwise, because the padding cannot be negative |
| XleaseRecord.Bytes | lib/vdsm/storage/xlease.py:262-277 | `Record.bytes`, with the padding clamped at zero as `b"0" * padding` is; its length, layout and round trip are stated by BytesLength, BytesLayout and RoundTrip |
| XleaseRecord.BytesLayout | lib/vdsm/storage/xlease.py:262-277 | a valid record encodes to 64 bytes: the id, a colon, the state byte, a colon, ten timestamp digits, a colon, '0' padding and a final newline |
| XleaseRecord.FromBytes | lib/vdsm/storage/xlease.py:210-245 | `frombytes` fails with "incorrect length" exactly when the input is not 64 bytes; any error carries the input record; a parsed resource is ASCII |
| XleaseRecord.FieldCount | lib/vdsm/storage/xlease.py:227-230 | a 64-byte record fails with "incorrect number of fields" exactly when it does not hold exactly three colons |
| XleaseRecord.FromFields | lib/vdsm/storage/xlease.py:232-245 | a record built from fields has a resource that re-encodes to the field, a state that is the state byte, and a timestamp `int()` reads from the field; errors are BadResource, BadState or BadTimestamp |
| XleaseRecord.FromBytesShaped | lib/vdsm/storage/xlease.py:227-245 | on a record with colons at 36, 38 and 49, `frombytes` parses the three fields at those positions |
| XleaseRecord.SplitColonShape | lib/vdsm/storage/xlease.py:228 | such a record splits at its three colons into id, state, timestamp and padding |
| XleaseRecord.RoundTrip | lib/vdsm/storage/xlease.py:210-277 | `frombytes(r.bytes())` is r for every valid record, in each of the U, F and S states |
| XleaseRecord.NonAsciiResourceRejected | lib/vdsm/storage/xlease.py:232-235 | a byte of 128 or more in the id makes `frombytes` fail with "cannot decode resource" |
| XleaseRecord.BadStateRejected | lib/vdsm/storage/xlease.py:237-238 | any state byte other than U, F, S and ':' makes `frombytes` fail with "invalid state" |
| XleaseRecord.BadTimestampRejected | lib/vdsm/storage/xlease.py:240-243 | a non-digit, non-colon byte strictly inside the timestamp (not its first or last digit) makes `frombytes` fail with "cannot parse timestamp" |
| XleaseRecord.NotAnInteger | lib/vdsm/storage/xlease.py:240-243 | `int()` refuses a text with a non-digit between its first and last digits |
| XleaseRecord.ExtraColonRejected | lib/vdsm/storage/xlease.py:227-230 | a colon anywhere except the three field separators makes `frombytes` fail with "incorrect number of fields" |
| XleaseRecord.ColonCount | lib/vdsm/storage/xlease.py:262-277 | an encoded valid record holds exactly three colons |
| DirectIO.Overwrite | lib/vdsm/storage/xlease.py:546-553 | writing data at an offset replaces exactly those bytes, keeps the rest and extends the file only past its end |
| DirectIO.OverwriteTwice | lib/vdsm/storage/xlease.py:548-553 | writing a and then b just after it is the same as writing a + b |
| DirectIO.DirectFile.ReadInto | lib/vdsm/storage/xlease.py:526-544 | the loop of partial reads fills the whole buffer with the file's bytes at the position, returns the buffer length and advances the position by it |
| DirectIO.DirectFile.Write | lib/vdsm/storage/xlease.py:546-553 | the loop of partial writes puts all of the data at the position and advances the position by its length |
| DirectIO.DirectFile.Seek | lib/vdsm/storage/xlease.py:558-559 | seek sets the position |
| XleaseIndexBuffer.Find | lib/vdsm/storage/xlease.py:452 | `mmap.find` gives the first offset at or after start where the pattern matches, or -1 when none does |
| XleaseIndexBuffer.FindRecord | lib/vdsm/storage/xlease.py:446-457 | `find_record` is -1 or a record number |
| XleaseIndexBuffer.FindRecordMatches | lib/vdsm/storage/xlease.py:446-457 | `find_record` is -1 exactly when `<id>:` occurs nowhere after RECORD_BASE; otherwise it is the record holding such a match |
| XleaseIndexBuffer.ReadRecord | lib/vdsm/storage/xlease.py:459-466 | `read_record(n)` is `frombytes` of the 64 bytes of record n: a parse error carries exactly those bytes, and a parsed resource is ASCII; ReadEncoded gives record n on a well-formed buffer |
| XleaseIndexBuffer.ReadEncoded | lib/vdsm/storage/xlease.py:459-466 | on a well-formed buffer, `read_record(n)` is record n |
| XleaseIndexBuffer.EncodesUnique | lib/vdsm/storage/xlease.py:459-466 | a buffer encodes at most one record sequence |
| XleaseIndexBuffer.FirstWith | lib/vdsm/storage/xlease.py:446-457 | the first record at or after from with the given id, or -1 when there is none |
| XleaseIndexBuffer.MatchAtRecordStart | lib/vdsm/storage/xlease.py:451-452 | on a well-formed buffer and for a 36-character id without ':', `<id>:` matches at the start of record n exactly when record n holds the id |
| XleaseIndexBuffer.NoMatchInside | lib/vdsm/storage/xlease.py:452-457 | on a well-formed buffer and for a 36-character id without ':', `<id>:` never matches inside a record, which settles the alignment TODO for such ids |
| XleaseIndexBuffer.FindFromRecord | lib/vdsm/storage/xlease.py:452 | searching from record n finds the start of the first record at or after n that holds the id |
| XleaseIndexBuffer.FindRecordIsFirstWith | lib/vdsm/storage/xlease.py:446-457 | on a well-formed buffer and for a 36-character id without ':', `find_record` is the first record holding the id |
| XleaseIndexBuffer.WithSlotFrame | lib/vdsm/storage/xlease.py:468-475 | writing a slot puts the data in that slot and changes no other byte and no other slot |
| XleaseIndexBuffer.WithRecord | lib/vdsm/storage/xlease.py:468-475 | writing a valid record into a well-formed buffer keeps it well-formed, with record n replaced |
| XleaseIndexBuffer.IndexBuffer.constructor | lib/vdsm/storage/xlease.py:434-444 | the buffer holds the first INDEX_SIZE bytes of the file, the file's bytes and durable state are unchanged, and the file position is left at INDEX_SIZE |
| XleaseIndexBuffer.IndexBuffer.WriteRecord | lib/vdsm/storage/xlease.py:468-475 | `write_record` changes exactly the 64 bytes of record n, to `record.bytes()` |
| XleaseIndexBuffer.IndexBuffer.DumpRecord | lib/vdsm/storage/xlease.py:477-490 | `dump_record` writes the one block starting at `offset - offset % BLOCK_SIZE` to the file, leaves the file position at the end of that block and makes the file durable |
| XleaseIndexBuffer.IndexBuffer.Dump | lib/vdsm/storage/xlease.py:492-500 | `dump` writes the whole buffer at offset 0, leaves the file position at INDEX_SIZE and makes the file durable |
| XleaseIndexBuffer.DumpedBlockHoldsRecord | lib/vdsm/storage/xlease.py:477-490 | after `dump_record(n)` the file holds record n of the buffer, and nothing outside that block changed |
| Xlease.LastLease | lib/vdsm/storage/xlease.py:406-422 | the last record below n that is not free and holds the id, or -1 |
| Xlease.LeasesStep | lib/vdsm/storage/xlease.py:411-421 | a record that parses adds its id to the dictionary when it is not free, and leaves the dictionary alone when free |
| Xlease.LeasesFailure | lib/vdsm/storage/xlease.py:414-415 | a record that does not parse makes `leases` fail with that record's error |
| Xlease.LeasesFailureSticks | lib/vdsm/storage/xlease.py:411-415 | once the loop has failed, later records do not change the outcome |
| Xlease.LeasesOfKeys | lib/vdsm/storage/xlease.py:411-421 | the dictionary's keys are the ids of non-free records, each mapped to the offset, state name and time of its last record |
| Xlease.LeasesOfRecords | lib/vdsm/storage/xlease.py:406-422 | when every record parses, the loop builds the record-level dictionary |
| Xlease.RecordResultsEncoded | lib/vdsm/storage/xlease.py:414 | on a well-formed buffer every record parses to the record it encodes |
| Xlease.LeasesOnRecords | lib/vdsm/storage/xlease.py:406-422 | on a well-formed buffer `leases` succeeds and returns exactly the non-free records, keyed by id |
| Xlease.ConcatSlice | lib/vdsm/storage/xlease.py:400-402 | the n-th 64-byte piece of k copies of a record is that record |
| Xlease.FormatStep | lib/vdsm/storage/xlease.py:400-402 | one more turn of the format loop writes one more free record |
| Xlease.FormattedSlot | lib/vdsm/storage/xlease.py:400-402 | after the format loop, every one of the 4000 slots holds the free record it wrote |
| Xlease.FormattedEncodes | lib/vdsm/storage/xlease.py:392-404 | after `format` the buffer encodes 4000 free records with the blank id and the time of the call |
| Xlease.FormattedFirstWith | lib/vdsm/storage/xlease.py:392-404 | in a formatted index only the blank id is found, at record 0 |
| Xlease.FormattedIsEmpty | lib/vdsm/storage/xlease.py:392-422 | `leases` after `format` is the empty dictionary |
| Xlease.FormattedLookupAndAdd | lib/vdsm/storage/xlease.py:317-404 | after `format`, `lookup` of any other id raises NoSuchLease and `add` takes record 0 |
| Xlease.AddKeepsUnique | lib/vdsm/storage/xlease.py:340-371 | adding an absent id keeps every non-blank id in at most one record |
| Xlease.RemoveKeepsUnique | lib/vdsm/storage/xlease.py:373-390 | freeing a record keeps ids unique |
| Xlease.FormattedUnique | lib/vdsm/storage/xlease.py:392-404 | a formatted index has unique ids |
| Xlease.FirstWithAdded | lib/vdsm/storage/xlease.py:340-371 | after adding an absent id, the first record holding it is the one written |
| Xlease.FirstWithRemoved | lib/vdsm/storage/xlease.py:373-390 | after removing a unique id, no record holds it |
| Xlease.LookupIn | lib/vdsm/storage/xlease.py:317-338 | `lookup` returns a LeaseInfo for the requested lockspace, id and path, or raises NoSuchLease, StaleLease or InvalidRecord |
| Xlease.LookupOnRecords | lib/vdsm/storage/xlease.py:317-338 | on a well-formed buffer and for a 36-character id without ':': NoSuchLease when no record holds the id, StaleLease with the record's time when the first one is stale, else a LeaseInfo with that slot's lease offset and time |
| Xlease.Refusal | lib/vdsm/storage/xlease.py:354-360 | the error `add` raises for a present id: InvalidRecord, carrying the record's parse error, when it does not parse; otherwise StaleLease when stale, else LeaseExists, both with the record's time |
| Xlease.AddPlan | lib/vdsm/storage/xlease.py:340-365 | `add` picks a record number only when the id is absent; its errors are NoSpace, LeaseExists, StaleLease or InvalidRecord |
| Xlease.AddOnRecords | lib/vdsm/storage/xlease.py:340-371 | on a well-formed buffer and for a 36-character id without ':', `add` refuses a present id (StaleLease or LeaseExists), raises NoSpace when no record holds the blank id, else takes the first record that does; the buffer stays well-formed and ids stay unique |
| Xlease.AddThenLookup | lib/vdsm/storage/xlease.py:317-371 | on a well-formed buffer and for a 36-character id without ':', after a successful `add`, `lookup` returns the new lease at the slot it took, with the time of the add |
| Xlease.RemoveOnRecords | lib/vdsm/storage/xlease.py:373-390 | on a well-formed buffer and for a 36-character id without ':', `remove` finds the first record holding the id, and freeing it keeps the buffer well-formed and ids unique |
| Xlease.RemoveThenLookup | lib/vdsm/storage/xlease.py:373-390 | on a well-formed buffer with unique ids, after `remove` of a present 36-character id without ':', `lookup` raises NoSuchLease |
| Xlease.FilledNext | lib/vdsm/storage/xlease.py:353-367 | in an index whose first k records hold the first k new leases and the rest are free, the next new id is absent, record k is the first free one, and writing the lease there fills records 0 .. k |
| Xlease.FillStep | lib/vdsm/storage/xlease.py:340-371 | on such an index, `add` of the next new id takes record k |
| Xlease.AddEachStep | lib/vdsm/storage/xlease.py:362-368 | a sequence of adds extends by one more add, which writes a USED record with its time into the slot that add picked |
| Xlease.WrittenFilled | lib/vdsm/storage/xlease.py:366-367 | writing the new leases into records 0 .. k-1 of an index of free records gives the filled index |
| Xlease.FillFrom | lib/vdsm/storage/xlease.py:340-404 | after `format`, the adds of k distinct new 36-character ids all succeed and write them, in order, into records 0 .. k-1 |
| Xlease.AddTakesNext | lib/vdsm/storage/xlease.py:340-404 | after `format` and the adds of the first k new ids, `add` of the next one takes record k |
| Xlease.FullFirstWith | lib/vdsm/storage/xlease.py:353-364 | once all 4000 records hold added leases, no record is free and no record holds an id that was not added |
| Xlease.FullIndexNoSpace | lib/vdsm/storage/xlease.py:340-404 | after `format` and 4000 adds of distinct new ids, `add` of any further id fails with NoSpace |
| Xlease.FilledLastLease | lib/vdsm/storage/xlease.py:406-422 | in the records of those adds every added id's last record is its own, and no other id has a record in use |
| Xlease.FilledLeasesOfRecords | lib/vdsm/storage/xlease.py:406-422 | the dictionary of those records has exactly the added ids as keys, one per add, each USED at its own record's lease offset with the time of its add |
| Xlease.FilledLeasesOf | lib/vdsm/storage/xlease.py:406-422 | `leases` on an index holding those records succeeds with that dictionary |
| Xlease.FilledLeases | lib/vdsm/storage/xlease.py:340-422 | after `format` and the adds of distinct new ids, `leases` lists exactly the added ids, one entry per add and 4000 once the index is full, each USED at its record with the time of its add |
| Xlease.Index.constructor | lib/vdsm/storage/xlease.py:302-308 | the index loads the first INDEX_SIZE bytes of the file, leaving the file's bytes unchanged and its position at INDEX_SIZE, and keeps the lockspace and the file |
| Xlease.Index.Lookup | lib/vdsm/storage/xlease.py:317-338 | as LookupOnRecords, on the index's own buffer, file path and lockspace |
| Xlease.Index.Add | lib/vdsm/storage/xlease.py:340-371 | on refusal nothing changes, the file position included; otherwise the chosen slot gets a USED record with the time of the call, only its block is written to the file and made durable, the position is left at that block's end, and the LeaseInfo has that slot's lease offset |
| Xlease.Index.Remove | lib/vdsm/storage/xlease.py:373-390 | NoSuchLease and nothing changes, the file position included, when the id is absent; otherwise its slot gets a blank FREE record, only that block is written and made durable, and the position is left at that block's end |
| Xlease.Index.Format | lib/vdsm/storage/xlease.py:392-404 | every slot gets a blank FREE record, the metadata blocks are kept, and the whole buffer is written and made durable, leaving the position at INDEX_SIZE |
| Xlease.Index.Leases | lib/vdsm/storage/xlease.py:406-422 | the loop returns the dictionary of its specification, or the first record error |
| IpAddress.NetmaskBitsIffPrefix | lib/vdsm/network/ip/address.py:86-89 | `num & (num - 1) == (num << 1) & 0xffffffff` holds exactly for the 33 masks of 0 to 32 leading one bits |
| IpAddress.NetmaskBits | lib/vdsm/network/ip/address.py:87 | the bit test on 32-bit vectors; NetmaskBitsIffPrefix states exactly which values pass it |
| IpAddress.NetmaskBitsPrefix | lib/vdsm/network/ip/address.py:86-89 | a value passing the bit test has its set bits, counted, as leading ones |
| IpAddress.PrefixMaskBits | lib/vdsm/network/ip/address.py:236-241 | every prefix mask passes the bit test |
| IpAddress.ValidateAddress4 | lib/vdsm/network/ip/address.py:71-77 | an IPv4 address is accepted exactly when `inet_pton` parses it, else it is a bad address |
| IpAddress.ValidateNetmask | lib/vdsm/network/ip/address.py:79-89 | a netmask is accepted exactly when it parses and passes the bit test; both failures are a bad netmask |
| IpAddress.NetmaskIffPrefix | lib/vdsm/network/ip/address.py:79-89 | `validateNetmask` accepts exactly the texts that parse to one of the 33 prefix masks |
| IpAddress.ValidateGateway4 | lib/vdsm/network/ip/address.py:91-98 | a gateway is accepted exactly when it parses, else it is a bad gateway |
| IpAddress.NewIPv4 | lib/vdsm/network/ip/address.py:35-58 | an accepted configuration keeps its five fields as given |
| IpAddress.NewIPv4Accepts | lib/vdsm/network/ip/address.py:35-58 | `IPv4()` accepts an address exactly when a netmask is given, both parse, the netmask is a prefix mask, any gateway parses and bootproto is not dhcp; without an address it accepts exactly when there is no netmask and no gateway |
| IpAddress.NewIPv4Errors | lib/vdsm/network/ip/address.py:37-53 | an address without a netmask, or a netmask or gateway without an address, raises; a bad address raises as such; mixing an address with dhcp is the only cause of the mixing error |
| IpAddress.FalseIPv4IsEmpty | lib/vdsm/network/ip/address.py:60-61 | an accepted IPv4 is false exactly when it has no address, netmask, gateway or boot protocol |
| IpAddress.IPv4Bool | lib/vdsm/network/ip/address.py:60-61 | `IPv4.__bool__`; FalseIPv4IsEmpty states what a false configuration holds |
| IpAddress.PrefixToNetmask | lib/vdsm/network/ip/address.py:236-241 | `prefix2netmask` fails exactly outside 0 .. 32, and otherwise is the dotted quad of the mask with the top prefix bits set |
| IpAddress.PrefixToNetmaskValidates | lib/vdsm/network/ip/address.py:236-241 | what `prefix2netmask` returns passes `validateNetmask` |
| IpAddress.PrefixToNetmask24 | lib/vdsm/network/ip/address.py:236-241 | prefix 24 is 255.255.255.0; 33 and -1 are refused |
| IpAddress.PrefixToNetmaskEnds | lib/vdsm/network/ip/address.py:236-241 | prefix 0 is 0.0.0.0 and prefix 32 is 255.255.255.255 |
| IpAddress.ValidatePrefixlen | lib/vdsm/network/ip/address.py:143-152 | `validatePrefixlen` accepts exactly the texts `int()` reads as a number from 0 to 127, and every failure is a bad prefix length |
| IpAddress.PrefixlenDecimal | lib/vdsm/network/ip/address.py:143-152 | a decimal prefix length is accepted exactly when it is at most 127, so 128 is refused |
| IpAddress.PrefixlenNegative | lib/vdsm/network/ip/address.py:146-149 | a '-' followed by the digits of a positive number is refused as a bad prefix length |
| IpAddress.PrefixlenNotAnInteger | lib/vdsm/network/ip/address.py:145-152 | a text holding no decimal digit is not an integer and is refused as a bad prefix length |
| IpAddress.PrefixlenIntForms | lib/vdsm/network/ip/address.py:143-152 | with surrounding whitespace, a sign and leading zeros, the value alone decides: accepted exactly when it is at most 127 and not negative, so "-0" is accepted and "+128" is refused |
| IpAddress.ValidateAddress6 | lib/vdsm/network/ip/address.py:132-141 | `IPv6.validateAddress` fails only with a bad address or a bad prefix length |
| IpAddress.ValidateAddress6Parts | lib/vdsm/network/ip/address.py:132-141 | without a '/' only the address is checked; with one, the text before the first '/' must parse and then the text after it is checked as a prefix length |
| IpAddress.ValidateGateway6 | lib/vdsm/network/ip/address.py:154-159 | an IPv6 gateway is accepted exactly when it passes `validateAddress`, else it is a bad gateway |
| IpAddress.NewIPv6 | lib/vdsm/network/ip/address.py:102-119 | an accepted configuration keeps its fields as given |
| IpAddress.NewIPv6Accepts | lib/vdsm/network/ip/address.py:102-119 | `IPv6()` accepts an address exactly when it and any gateway validate and neither autoconf nor DHCPv6 is set; without an address it accepts exactly when no gateway is given |
| IpAddress.IPv6Configures | lib/vdsm/network/ip/address.py:102-122 | an accepted IPv6 with an address is true and has neither autoconf nor DHCPv6; one without an address is true exactly when autoconf or DHCPv6 is set, and has no gateway |
| IpAddress.IPv6Bool | lib/vdsm/network/ip/address.py:121-122 | `IPv6.__bool__`; IPv6Configures states when an accepted configuration is true |
| Routes.IsCandidate | lib/vdsm/network/netinfo/routes.py:82-87 | a route is a candidate exactly when its destination is 'none', its table matches or the table is UNSPEC, its scope is 'global' and its family matches; a missing key raises KeyError only when the filter reaches it |
| Routes.Candidates | lib/vdsm/network/netinfo/routes.py:82-87 | the candidate list holds exactly the candidate routes, and success means every route was filtered without a KeyError; a KeyError is the one of the first route whose filter raises |
| Routes.GatewaySet | lib/vdsm/network/netinfo/routes.py:93 | the set of gateways is defined exactly when every candidate has one, and holds exactly their gateways |
| Routes.GetGateway | lib/vdsm/network/netinfo/routes.py:71-86 | a device missing from the dictionary raises KeyError, and a KeyError of the route filter is raised as it is |
| Routes.GetGatewayCases | lib/vdsm/network/netinfo/routes.py:88-105 | no candidates give the family default; one candidate gives its gateway; candidates all sharing one gateway give it; two distinct gateways give the family default; a candidate without a gateway raises KeyError('gateway'), alone or among several |
| Routes.GetGatewayIsCandidate | lib/vdsm/network/netinfo/routes.py:77-105 | the result is the family default or the gateway of some candidate route of the device |
| Routes.OnDevice | lib/vdsm/network/netinfo/routes.py:111-114 | a device's group holds exactly the routes whose oif is that device |
| Routes.OnDeviceNonEmpty | lib/vdsm/network/netinfo/routes.py:111-114 | a device's group is non-empty exactly when some route leads to it |
| Routes.GetRoutes | lib/vdsm/network/netinfo/routes.py:108-115 | the keys are exactly the devices some route names as oif, each mapped to its routes in input order; routes without oif are dropped |

## Left out

- I/O: `os.open` with `O_DIRECT`, the `mmap` allocation, `os.fsync`, `close`, EINTR retries in `uninterruptible`, the `PY2` branches and logging are not modelled. The file is a byte sequence, and fsync copies it into the durable state.
- DirectIO.DirectFile.ReadInto: it requires that the file holds all the bytes asked for. The source has no end-of-file guard, and at the end of the file its loop would never end. A single read may return any positive count.
- DirectIO.DirectFile.Write: each partial write is taken to make progress, so a single write may return any positive count. A write that returns 0 would make the source loop forever, and that case is not modelled, as for reads.
- DirectIO.DirectFile.Seek: it drops the `whence` argument and the return value of `seek` (xlease.py:558-559). Every caller (xlease.py:440, :488 and :498) uses the default `SEEK_SET` and ignores the result.
- I/O errors (`OSError`) are not modelled. Operations that write the file cannot fail in the model.
- The metadata blocks 0-3 are never changed by the source (its format has a TODO). The model keeps them as they were.
- `time.time()` becomes the `now` parameter of `add`, `remove` and `format`.
- Xlease.Index.Add, Xlease.Index.Remove and Xlease.Index.Format: they require `now` to be a clock reading from 0 to 10^10 - 1 (1970 to 2286), which `"%010d"` writes in exactly ten digits. The source formats any integer time (xlease.py:256-257). A negative time gives a signed field such as `-000000005`, and an eleven-digit time gives a 64-byte record for a 36-character id, with less padding. The model writes neither, and Add's bound of 49 characters for the id assumes the ten-digit width.
- Xlease.Index.Add: it requires an ASCII id of at most 49 characters. A longer id makes `Record.bytes` longer than 64 bytes. `write_record` would then overwrite the next slot or fail at the end of the buffer. The model does not describe that case (XleaseRecord.BytesLength states the length).
- Xlease.Index.Lookup, Xlease.Index.Add and Xlease.Index.Remove require an ASCII id. The source raises `UnicodeEncodeError` for other ids, and that error is not modelled.
- The results of `lookup`, `add` and `remove` are related to the records only on a well-formed buffer and for a 36-character lease id without `:`, as the alignment TODO demands. A shorter id, such as a suffix of a stored one, can match inside a record. On other buffers the model follows the byte search as written, but proves nothing about which record is meant.
- Error messages are not modelled, only the exception kinds and their fields. Where the source catches an error and rewrites its message, the model's `AddressError` names the rewritten message: BadIPv4Netmask for `validateNetmask` (address.py:82-85), BadIPv4Gateway for `IPv4.validateGateway` (address.py:94-98) and BadIPv6Gateway for `IPv6.validateGateway` (address.py:156-160). The last rewrite leaves `%r` unformatted, which is not modelled.
- Python's `int()` is modelled with optional surrounding ASCII whitespace, an optional sign and ASCII digits. Three things are not modelled:
  - underscores between digits;
  - non-ASCII digits;
  - the further whitespace that `int()` of a `str` strips, namely U+001C to U+001F and non-ASCII spaces.
- `socket.inet_pton` is a parameter of the model, for both address families. `validateNetmask` reads the number with `inet_aton`, which the model takes as the number `inet_pton` parsed. `inet_ntoa` is written out as the dotted quad of the four bytes.
- `prefix2netmask` on a non-integer argument is not modelled: the argument is an `int`.
- The routes of `get_routes` come from netlink, which is not part of this model; they are the method's input sequence. Other route attributes are not modelled.
- Routes.GetRoutes: it returns a plain map. The source returns a `defaultdict(list)`, which gives an empty list, not a KeyError, when `get_gateway` is later asked about a device without routes. The model gives the KeyError of a plain dictionary.
- The table constant `_RT_TABLE_UNSPEC` of the netlink module is taken as 0, the value of `RT_TABLE_UNSPEC` in Linux.
- The other functions of `address.py` (`addrs_info`, `add`, `flush`, `set_default_route`, the IPv6 sysctl helpers and `ipv6_supported`) and of `routes.py` (`getRouteDeviceTo`, `getDefaultGateway`, `ipv6_default_gateway` and `is_*default_route`) are not modelled. They act on the system through ipwrapper, sysctl, sockets, netlink or `ip route`.
- The `__repr__` and `__nonzero__` methods are not modelled. `__nonzero__` only calls `__bool__`.
- `BLOCK_SIZE` is imported by `xlease.py`. It is taken as 512.
