# minimdnsd query path, modelled in Dafny

`minimdnsd.c` is a small mDNS responder. It answers A queries for the machine's host name, `<host>.local`, with the IPv4 address of the interface the query arrived on. It also keeps per-interface address tables up to date from address-change notifications, joining the mDNS group on local IPv4 addresses.

This project models the core of that program and proves properties of the model.

| module | file | what it models |
|---|---|---|
| `Bytes` | `bytes.dfy` | octets, ASCII lowercasing, `ntohs` of two bytes |
| `NameCodec` | `name_codec.dfy` | `ParseMDNSPath`, the wire-name decoder |
| `Addresses` | `addresses.dfy` | `IsAddressLocal`, `IsAddress6Local`, `CheckAndAddMulticast` |
| `IfaceTable` | `iface_table.dfy` | the IPv4/IPv6 interface tables, their growth in `HandleNetlinkData`, their lookup in `HandleRX`, and the start-up enumeration of `HandleRequestingInterfaces`, which only joins |
| `HostName` | `host_name.dfy` | the in-place normalisation of the host-name bytes read from the file |
| `Responder` | `responder.dfy` | `HandleRX` after the receive: header, question loop, suffix and match tests, the A answer |

## How the model is built

**The decoder.**
- `NameCodec.Walk` is the decoder as the code runs it: one length byte, the output bound test, a '.', the lowercased label.
- `ReadLabels` and `JoinDots` are an independent, label-level reading of the same bytes. `WalkFromLabels` proves that the two agree.
- `Encode` is the wire form of a label list. `DecodeEncoded` and `EncodeOfRead` are the round trip in both directions.
- `ParseMDNSPath` is the imperative loop over two arrays. It is proved equal to `Decode`.

**The question path.**
- `Responder.Replies` is the list of datagrams sent for one received datagram, as a function of four inputs: the receive buffer, the host name, the IPv4 table and the interface index.
- `HandleRX` computes the same list imperatively:
  - the loop of `AnswerQuestions`;
  - `ParseMDNSPath` into a path buffer;
  - `strlen`/`strcmp`;
  - the first-dot scan;
  - the `memcmp`;
  - the byte-by-byte fill of `outbuff`.
- `sendto` becomes the returned list. The receive becomes the buffer and the byte count `r`.

**Byte order.** The host's byte order is a parameter, `bigEndian`, so both of these quirks are modelled exactly:
- The transaction id is read with `ntohs` and stored back without `htons`.
- The table index is `htonl` of the sender's scope id, stored in an `int`.

**The tables.** Each table is a class over an array of socket addresses. `Record` grows the array, zeroes the new slots and stores the record. For the IPv4 table this is the corrected growth: as written, line 186 clears a count of slots based on the IPv6 table's length (see Findings), which `RecordIPv4AsWritten` models, so `Interfaces.OnNewAddress` states the intended IPv4 update, not the one line 186 performs. `Lookup` accepts an in-range slot with a nonzero family.

**The host name.** `Host.Normalise` is the in-place pass over the global `hostname` buffer.

**Constants.** `HOST_NAME_MAX` is Linux's 64, so `MAX_MDNS_PATH` is 72. `AF_INET` and `AF_INET6` are Linux's 2 and 10.

## Model

| member | source | states |
|---|---|---|
| NameCodec.Walk | minimdnsd.c:207-235 | The decoder loop as a function. Its meaning is stated by `WalkFromLabels`, `WalkConsumed`, `WalkLengthBound`, `WalkTruncated` and `WalkReadsWindow`. |
| NameCodec.Decode | minimdnsd.c:202-236 | `ParseMDNSPath` from an empty path. It is characterised by `DecodeFromLabels` and `DecodeEncoded`. |
| NameCodec.ParseMDNSPath | minimdnsd.c:202-236 | The outcome is exactly `Decode` of the buffer at the cursor. The length is at most `MAX_MDNS_PATH`. On success the path holds the decoded name with a NUL at index `len`, and the write stays in a buffer of `MAX_MDNS_PATH + 1` bytes. |
| NameCodec.AppendLabel | minimdnsd.c:217-234 | One pass after the checks: the path grows by a '.' (except before the first label), then the lowercased label, and is NUL-terminated after it. The length grows by the same amount. |
| NameCodec.CopyLabel | minimdnsd.c:224-231 | The copied label is the source bytes with 'A'..'Z' mapped to 'a'..'z'. Bytes before the write position are unchanged. |
| NameCodec.WalkFromLabels | minimdnsd.c:207-235 | On a complete wire name the decoder returns null exactly when some label fails the bound (length written so far plus label length reaching the limit, the '.' not counted). Otherwise it returns the labels in wire order, lowercased and joined by single '.', with the cursor just past the zero terminator. |
| NameCodec.DecodeFromLabels | minimdnsd.c:207-235 | `WalkFromLabels` for a decode from scratch: null exactly when a label fails `FitsBound`, else the lowered '.'-join of the labels read. |
| NameCodec.WalkLabelTooLong | minimdnsd.c:215 | A label whose length, added to the length written so far, reaches the limit makes the decoder return null. |
| NameCodec.DecodeEncoded | minimdnsd.c:207-235 | Round trip: the wire encoding of non-empty labels of at most 255 bytes that pass the bound decodes to those labels lowercased and joined by '.', and the cursor ends just past the encoding. |
| NameCodec.EncodeOfRead | minimdnsd.c:209-232 | Converse round trip: the bytes the label reader consumes are exactly the encoding of the labels it returns. |
| NameCodec.ReadEncoded | minimdnsd.c:209-232 | A label list in wire form reads back as itself, ending just past its encoding. |
| NameCodec.ReadIsEncoded | minimdnsd.c:209-232 | The labels read sit in wire form where they were read, and the cursor ends after their encoding. |
| NameCodec.WalkTruncated | minimdnsd.c:209-232 | A name whose bytes end before its zero terminator never decodes successfully. |
| NameCodec.WalkLengthBound | minimdnsd.c:215-222 | A decoded name is at most `MAX_MDNS_PATH` bytes. The bound is not strict, because the '.' is not counted. |
| NameCodec.DecodedLengthCanReachMax | minimdnsd.c:215-233 | A 63-byte label followed by an 8-byte label decodes to a name of exactly `MAX_MDNS_PATH` bytes, so the terminating NUL goes to index `MAX_MDNS_PATH`. |
| NameCodec.WalkConsumed | minimdnsd.c:209-232 | The returned cursor is `|name| + 2` bytes past the start for a non-empty name (1 for the empty name), and the byte before it is the zero terminator. |
| NameCodec.WalkWithin | minimdnsd.c:209-232 | A decode that succeeds and ends within the first `r` bytes reads none past them: buffers that agree on those bytes decode alike. |
| NameCodec.WalkAgree | minimdnsd.c:209-232 | `WalkWithin` stated for any decode: if it succeeds within the first `r` bytes, it is the same in every buffer that agrees on them. |
| NameCodec.WalkReadsWindow | minimdnsd.c:209-232 | The decoder reads nothing more than `MAX_MDNS_PATH + 2` bytes from its start: buffers that agree on that window decode alike. That window, not the datagram's end, bounds its reads. |
| Addresses.IsAddressLocal | minimdnsd.c:61-70 | The five mask tests on the host-order word. `IsAddressLocalRanges` states which addresses pass. |
| Addresses.IsAddress6Local | minimdnsd.c:72-75 | The link-local and site-local mask tests. `IsAddress6LocalPrefix` states which addresses pass. |
| Addresses.IsAddressLocalRanges | minimdnsd.c:61-70 | The five mask tests hold exactly for 127/8, 10/8, 172.16/12, 192.168/16 and 169.254/16. |
| Addresses.LocalExamples | minimdnsd.c:61-70 | 192.168.1.5 and 172.31.0.1 are local; 8.8.8.8 and 172.32.0.1 are not. |
| Addresses.IsAddress6LocalPrefix | minimdnsd.c:72-75 | Link-local or site-local holds exactly for addresses whose first byte is 0xfe and whose second is at least 0x80 (fe80::/9). Unique-local fd00::/8 is excluded. |
| Addresses.CheckAndAddMulticast | minimdnsd.c:77-106 | The result is -1 exactly for no address, and otherwise one of 0, -2, -3. A join is requested exactly when the result is 0 for an IPv4 address, and it is on that address. Families other than IPv4 and IPv6 give 0 and no join. |
| Addresses.JoinOnlyForLocalIPv4 | minimdnsd.c:77-106 | A join happens exactly for IPv4 in the five local blocks. -2 means non-local IPv4. -3 means IPv6 outside fe80::/9. |
| IfaceTable.Stored | minimdnsd.c:167-174 | The table after an update has `ifindex + 1` slots when it was shorter, and keeps its length otherwise. |
| IfaceTable.Find | minimdnsd.c:355-360 | The lookup finds an entry exactly when the index is in range and the slot's family is nonzero, and then it is that slot. |
| IfaceTable.FindAfterStored | minimdnsd.c:160-190 | After an update, the stored index is found exactly when its family is set. Slots that existed keep their lookup. The zeroed slots added by growth are never found. |
| IfaceTable.Table.constructor | minimdnsd.c:31-34 | The zero-initialised table is empty. |
| IfaceTable.Table.Record | minimdnsd.c:167-174 | Growth keeps the old slots, zeroes the new ones and stores the record: the contents become `Stored` of the old contents. |
| IfaceTable.Table.Lookup | minimdnsd.c:355-360 | The result is `Find` of the contents, with the table's address width. |
| IfaceTable.RecordIPv4AsWritten | minimdnsd.c:182-189 | The IPv4 growth as written, with the memset counted against the IPv6 table's length. Storing into an existing slot overwrites just that slot. |
| IfaceTable.StaleSlotVisible | minimdnsd.c:186 | With a two-slot IPv6 table and an empty IPv4 table, an IPv4 address on interface 2 leaves slot 1 uncleared. A lookup of interface 1 then returns stale memory, where the intended update finds nothing. |
| IfaceTable.GrowthOverruns | minimdnsd.c:186 | A longer IPv6 table makes the memset count negative. A shorter one makes the memset run past the new block. |
| IfaceTable.Interfaces.constructor | minimdnsd.c:31-34 | Both tables start empty, with no joins. |
| IfaceTable.Interfaces.OnNewAddress | minimdnsd.c:159-190 | An IPv4 address is recorded in the IPv4 table, with the corrected growth of the line-186 finding rather than line 186 as written, and joined on when local. An IPv6 address is recorded in the IPv6 table with the interface index as its scope id, with no join. The other table is unchanged. Other families change nothing. |
| IfaceTable.EnumerationJoins | minimdnsd.c:108-127 | The joins asked for by classifying each enumerated address in order. `EnumerationJoinsLocal` states which addresses they are. |
| IfaceTable.EnumerationJoinsLocal | minimdnsd.c:108-127 | An address is joined at start-up exactly when the enumeration lists it as an IPv4 address in one of the five local blocks. |
| IfaceTable.Interfaces.OnStartup | minimdnsd.c:108-127 | The start-up enumeration only adds `EnumerationJoins` of the listed addresses to the joins. Both tables, and so every lookup, are left as they were. |
| HostName.TruncationPoint | minimdnsd.c:335-349 | The length the pass leaves is the index of the last newline among the bytes read, or their count when there is none. |
| HostName.TruncationSnoc | minimdnsd.c:338-344 | One more byte read: a newline becomes the cut; any other byte leaves it, or extends the uncut length. |
| HostName.NormalisedName | minimdnsd.c:335-350 | The name left is the bytes before the last newline, lowercased, with no uppercase letter remaining. A NUL follows it, so `hostname[0]` is the name's first byte, or NUL when the name is empty. |
| HostName.NormaliseExample | minimdnsd.c:335-350 | A file holding "Alpha\n" gives the name "alpha". |
| HostName.LastNewlineWins | minimdnsd.c:338-344 | "ab\n\n" gives "ab\n": the last newline sets the length. |
| HostName.Host.constructor | minimdnsd.c:26-28 | The zero-initialised globals hold an empty name. |
| HostName.Host.NormaliseByte | minimdnsd.c:340-348 | One byte of the pass: the byte is lowercased, and a newline sets the length to its index. Nothing else changes. |
| HostName.Host.Normalise | minimdnsd.c:335-350 | The length becomes `TruncationPoint` of the bytes read, and the buffer becomes `Normalised`: the bytes read lowercased, the rest untouched, and a NUL at the length. |
| HostName.PassThenCut | minimdnsd.c:338-350 | The bytes after the pass, with the NUL written at the cut, are the normalised buffer. |
| Bytes.BigEndian16 | minimdnsd.c:259-262 | `ntohs` of an aligned load: a 16-bit value whose high byte is the first byte. |
| Responder.StrLen | minimdnsd.c:287 | `strlen`: no NUL before the result, and a NUL at it unless it is the length. |
| Responder.FirstStop | minimdnsd.c:300-302 | The first-dot scan stops at the first '.' or NUL, with neither before it. |
| Responder.HostOrder16 | minimdnsd.c:372 | The 16-bit value as stored in host order reads back as that value, big- or little-endian. |
| Responder.TxidBytes | minimdnsd.c:372 | The reply's id echoes the query's two id bytes on a big-endian host and swaps them on a little-endian one. |
| Responder.ToInt32 | minimdnsd.c:256 | The unsigned value stored in an `int` is its two's-complement reading. |
| Responder.Htonl | minimdnsd.c:256 | The body is `htonl`: the identity on a big-endian host, a byte swap on a little-endian one. The contract only bounds the result to 32 bits. `ScopeIdByteSwapped` states the swap for scope ids from 1 to 127. |
| Responder.IfaceIndex | minimdnsd.c:256 | `iface`: `htonl` of the scope id, stored in an `int`. `ScopeIdByteSwapped` states its values. |
| Responder.ScopeIdByteSwapped | minimdnsd.c:256 | On a little-endian host, scope id k (below 128) becomes index k·2^24, so no table of at most 2^24 slots answers for it. On a big-endian host the index is k. |
| Responder.ResponsesIgnored | minimdnsd.c:270-271 | A datagram with the QR bit set gets no answer. |
| Responder.MatchesIff | minimdnsd.c:353 | The match test holds exactly when three things hold: the host name's first byte is set; the name is the host name followed by a '.'; and the host name holds neither '.' nor NUL. |
| Responder.LocalAloneNeverMatches | minimdnsd.c:300-310 | ".local" never matches, because its first label is empty. |
| Responder.DottedHostNeverMatches | minimdnsd.c:353 | A host name containing a '.' never matches any question. |
| Responder.NameIsLocal | minimdnsd.c:287-295 | A host name without '.' or NUL, followed by ".local", has `strlen` its length plus 6 and passes the suffix test. |
| Responder.AReplyShape | minimdnsd.c:369-390 | An answer is `stlen + 28` bytes long. It has the reply header, and ends with a zero, the type/class/TTL/length trailer and the address. |
| Responder.StepWellFormed | minimdnsd.c:276-398 | One question yields at most one answer, and any answer is well formed and carries the receiving interface's IPv4 address. |
| Responder.QuestionStep | minimdnsd.c:276-398 | One question as a function. `StepAfterDecode` and `StepWellFormed` state its outcomes. |
| Responder.QuestionLoop | minimdnsd.c:274-398 | The question loop as a function. `RepliesWellFormed` and `SecondQuestionReadsTypeField` state its properties. |
| Responder.Replies | minimdnsd.c:239-398 | The datagrams sent for one receive. `ResponsesIgnored`, `NoAnswerWithoutAddress`, `RepliesWellFormed` and `AnswerForHost` state what they are. |
| Responder.StepAgree | minimdnsd.c:276-398 | One question has the same outcome in two buffers that hold the same `r` received bytes: the decode, the line-280 check, the type field and the copied name all lie within them. |
| Responder.LoopAgree | minimdnsd.c:274-398 | The whole question loop sends the same answers from two buffers holding the same `r` received bytes. |
| Responder.ShortLoopEmpty | minimdnsd.c:274-285 | A datagram shorter than the 12-byte header gets no answer: the first decode cannot end with four bytes to spare. |
| Responder.RepliesOnlyReadDatagram | minimdnsd.c:274-280 | The answers depend only on the `r` bytes received. Stale bytes left in the receive buffer past them never reach an answer, because the line-280 check rejects any decode that ends too close to the datagram's end. |
| Responder.NoAnswerWithoutAddress | minimdnsd.c:355-364 | No query is answered while the receiving interface has no IPv4 entry. In particular, none is answered while the IPv4 table is still empty, before the first address notification. |
| Responder.RepliesWellFormed | minimdnsd.c:274-398 | A datagram gets no more answers than questions. Each answer is well formed, carries the interface's IPv4 address, and is at most `MAX_MDNS_PATH + 28` bytes, which fits `outbuff`. |
| Responder.SecondQuestionReadsTypeField | minimdnsd.c:278-297 | The next question is decoded from the previous question's type field. For a type below 256 that reads as the empty name, so a second question never adds an answer. |
| Responder.HostQuestionDecodes | minimdnsd.c:202-236 | A question for `<host>.local`, in any mix of letter case, decodes to the lowercase name and ends where its encoding does. |
| Responder.AnswerForHost | minimdnsd.c:239-398 | A single question for `<host>.local`, in any mix of letter case, is answered exactly when it asks for type A and the interface has an IPv4 address. The one answer carries the query's id as stored, the question's wire name verbatim (its case as sent) and that address. Any other type, AAAA included, gets nothing. |
| Responder.PathLength | minimdnsd.c:287 | The loop computes `StrLen` of the decoded path. |
| Responder.FirstDotLength | minimdnsd.c:300-310 | The loop computes `dotlen`: the first label's length when the scan stops at a '.', else 0. |
| Responder.PutHeader | minimdnsd.c:371-377 | The two-byte stores leave the id followed by 0x8400 and the counts 0, 1, 0, 0. |
| Responder.PutTrailer | minimdnsd.c:382-389 | The stores after the name leave a zero, type 1, class 0x8001, TTL 240, length 4 and the address, after the bytes already written. |
| Responder.BuildAReply | minimdnsd.c:369-390 | The sent bytes are exactly `AReply` of the id, the `stlen + 1` name bytes copied from the question, and the address. |
| Responder.HasLocalSuffix | minimdnsd.c:287-295 | The `strlen`/`strcmp` test is exactly `EndsWithLocal` of the decoded name. |
| Responder.MatchesHost | minimdnsd.c:353 | The `hostname[0]`/`dotlen`/`memcmp` test is exactly `Matches`. |
| Responder.StepAfterDecode | minimdnsd.c:280-398 | After a successful decode with four bytes to spare, the question's outcome is one of four: skip without the suffix, stop without a host name, answer on a full match with type A and an IPv4 address, or no answer. |
| Responder.HandleQuestion | minimdnsd.c:276-398 | One pass of the question loop computes exactly `QuestionStep`. |
| Responder.NextQuestion | minimdnsd.c:274-398 | After one pass, the loop's answers are this question's answers followed by the rest's, or none once it stops. |
| Responder.AnswerQuestions | minimdnsd.c:274-398 | The question loop sends exactly `QuestionLoop` from the first question. |
| Responder.HandleRX | minimdnsd.c:239-398 | The datagrams sent are exactly `Replies` of the received bytes, the interface index `htonl(scope id)`, the host name and the IPv4 table. |

## Left out

- `main`, the `poll` loop, socket creation and binding, and `sendto`/`recvfrom`: operating-system I/O. The received bytes and `r` are parameters; the sent datagrams are the result.
- `AddMDNSInterface4` and its `setsockopt`: a call into the kernel. A join is recorded as the address it asks for, in `Interfaces.joins`.
- Start-up enumeration (`HandleRequestingInterfaces`) is modelled by `Interfaces.OnStartup`. It only classifies the listed addresses and asks for joins, as lines 108-127 do, and never writes the tables. The `getifaddrs` call is a C library call; it becomes the list of addresses, and a failed call lists none.
- The tables are filled only by RTM_NEWADDR notifications, modelled as `Interfaces.OnNewAddress(family, ifindex, addr)`. The netlink framing of `HandleNetlinkData` (`recv`, `NLMSG_*`, `RTA_*`, `if_indextoname`) is not modelled: those are kernel-header macros and socket calls. Until the first notification for an interface, no query on it is answered, as `NoAnswerWithoutAddress` states.
- IfaceTable.Interfaces.OnNewAddress: the address is as wide as its family's field. The source copies the attribute's payload length `pld` unchecked, which can overrun `sai` for an oversized attribute.
- The `stat`/`open`/`read` of `/etc/hostname` and the `hosttime` cache: file I/O. `HandleRX` receives the normalised host name and an `available` flag. A failed `stat`, `open` or `read` makes that flag false, and the datagram stops, as at the `hostnamefault` label.
- Responder.HandleRX: the host name and its availability are one snapshot per datagram. The source re-checks the file before each question that passes the suffix test, so a file changed between two questions of one datagram is not modelled.
- Responder.HandleRX: the IPv4 table is looked up once per datagram. The source looks it up per matching question; nothing changes the table in between.
- Responder.HandleRX: a negative interface index (an `int` from `htonl` with the top bit set) is treated as absent. In the source, `iface < maxIFaceList4` accepts it and reads before the table, which is undefined behaviour.
- Responder.HandleQuestion: `path` is a fresh buffer per question rather than one reused across the loop. Every read of it stays within the name just written, so nothing observable depends on this.
- NameCodec.ParseMDNSPath: reads past the 9036-byte receive buffer are undefined behaviour in the source. The model stops with `PastBuffer`, which stops the datagram. A label that runs past the buffer is caught before the '.' is written, where the source writes the '.' and copies on.
- IPv6 answers: the AAAA branch is empty in the source and is modelled as sending nothing. The IPv6 group join is a stub (a message, no join) and is modelled as no join.
- `printf`/`fprintf`, `inet_ntop`/`inet_ntoa`: diagnostics only.
- The `#if 0` and commented-out service-discovery code after the A answer: it is not compiled.
- The bit masks of `IsAddressLocal` and of the IPv6 tests are modelled arithmetically, as the high bits of the 32-bit word. `IN6_IS_ADDR_LINKLOCAL` and `IN6_IS_ADDR_SITELOCAL` are taken as glibc defines them.
- Group membership is not tracked: each address notification for a local IPv4 address asks for the join again, and `Interfaces.joins` records every such request.
- Unique-local fd00::/8 addresses are not local: the two IPv6 tests accept fe80::/9 only, as `IsAddress6LocalPrefix` states.
- The decoder has no end-of-datagram check of its own. The only check is at line 280, after decoding (`dataend - dataptr < 4`), and `WalkReadsWindow` bounds what the decoder reads before it. The decoder may still read stale bytes past the datagram, but `RepliesOnlyReadDatagram` shows that such a read never affects the answers.
- No AAAA answer is sent (the branch at lines 394-398 is empty).
- IfaceTable.Interfaces.OnNewAddress: the IPv4 growth is the corrected one from the line-186 finding (`Table.Record` clears every new slot). As written, line 186 clears `newlen - maxIFaceList6` slots; that behaviour is modelled separately by `RecordIPv4AsWritten`, and its consequences are shown by `StaleSlotVisible` and `GrowthOverruns`.

## Findings

| source | as written | input that shows it | evidently intended | confidence | as-written member | corrected member |
|---|---|---|---|---|---|---|
| minimdnsd.c:215 | The bound `*len + l >= MAX_MDNS_PATH` does not count the '.' added at line 220. A name can decode to exactly `MAX_MDNS_PATH` bytes, and line 233 then writes its NUL to `path[MAX_MDNS_PATH]`, one past the `MAX_MDNS_PATH`-byte `path` of line 242. | A question name of a 63-byte label followed by an 8-byte label | The terminating NUL stays inside `path` (a buffer of `MAX_MDNS_PATH + 1` bytes, or a bound that counts the '.') | not executed | NameCodec.DecodedLengthCanReachMax | NameCodec.ParseMDNSPath |
| minimdnsd.c:186 | The IPv4 growth clears `newlen - maxIFaceList6` slots, counting against the IPv6 table's length. | IPv6 table of 2 slots, empty IPv4 table, then an IPv4 address on interface 2: slot 1 is not cleared, and a query on interface 1 is answered from stale memory | `newlen - maxIFaceList4`, as the IPv6 branch at line 171 does | not executed | IfaceTable.StaleSlotVisible | IfaceTable.Table.Record |
