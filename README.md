# DNS stub resolver client: the wire-format codec

This project models the core of a small DNS stub resolver client (`dns.cpp`).
The client is one object. It holds a 1024-byte packet buffer, the length of
the last query (`PacketLen`), that query's transaction ID (`TransID`) and the
list of MX results. The model covers what it does with those fields:

- `SendRequest` writes a query for one domain into the buffer. This is the
  12-byte header, the domain in label form and QTYPE/QCLASS.
- `SkipAnswerName` finds where a name in a response ends.
- `Parse_MX_Record` decodes a possibly compressed name (RFC 1035, section
  4.1.4) into a 64-byte field.
- `Parse_A_Request` reads the address of the first answer.
- `Parse_MX_Request` walks the answers and collects preference and exchange
  name for every MX record.
- The two C entry points `dns_get_iphost` and `dns_get_mxhost` chain a query
  and a parse.

The model is organised in four modules:

- `Wire` (`wire.dfy`) holds bytes, big-endian and host-order 16-bit fields,
  the signed reading of a `char`, and compression pointers.
- `Names` (`names.dfy`) holds three things. It gives the label encoding as a
  function `NameWire`. It gives the name skipper as `NameEndFrom`/`NameEnd`.
  It gives the decoder as `DecodeFrom`/`DecodeName`, with its 32-bit `len`
  counter and signed length bytes written out. It also proves what these
  functions promise.
- `Messages` (`messages.dfy`) holds the query (`QueryPacket`, `QueryAt`). It
  holds a reference description of the responses a server sends (`Record`,
  `RecordAt`, `ResponseAt`). It holds the functions the two parsers compute
  (`AnswerAddress`, `MxRecords`). It proves that on every response to the
  query those functions return the response's address or MX answers. A
  response is recognised by its ID, its ANCOUNT, the question repeated and
  then the answers. Its flags, QDCOUNT, NSCOUNT and ARCOUNT may hold
  anything, as the parsers never read them.
- `DnsClient` (`client.dfy`) holds the class `Client`. The buffer is an
  `array<byte>`, and the other fields are `packetLen`, `transId` and
  `results`. The source's operations are methods with loops. Each method is
  proved against the functions above that describe what it computes.

The host is taken to be little-endian, as the source's constants assume. The
flags constant `0x0001` and the question count `0x0100` therefore land on the
wire as `01 00` and `00 01`. The `DNS_Type` values (`0x0100` for A, `0x0F00`
for MX, ...) land as the big-endian type codes 1, 2, 6 and 15. The ID is
written and compared without byte swapping, so the model reads it in host
order (`HostU16`).

Reads the source makes outside the 1024-byte buffer are undefined behaviour.
The model reports them as the fault `OutOfBounds`. A name-skipping cursor can
step backwards over negative (signed `char`) length bytes. It can end before
its start (`Names.SkipStepsBack`) or never stop. The model gives it as many
steps as the buffer has bytes and reports `Endless` after that.

Three behaviours of the name decoder deserve a note:

- As written, the decoder stops after 64 characters (`j < 64`) and then
  writes its NUL, so a 64-character name puts the NUL one past the 64-byte
  field. This is the finding below. `Names.SOURCE_CAP` = 64 is that cap; the
  MX parser in the model decodes with the corrected cap `HOST_CAP` = 63.
- The decoder follows a leading pointer exactly once, without checking
  whether the target is itself a pointer. Pointers met where a length byte is
  due are followed every time. The model does the same.
- A pointer cycle does not make the decoder fail. The decoder goes round the
  cycle until the cap ends the loop (`Names.SelfLoopFills`). The model does
  the same.

## Model

| member | source | states |
|---|---|---|
| Wire.TypeCode | dns.cpp:63-69 | every record type code lies between 1 and 255 |
| Wire.TypeCodeWire | dns.cpp:63-69 | on the wire a record type is a zero byte followed by its code, which is what the enumerators (code times 0x100) leave in memory on a little-endian host |
| Wire.HostU16Swap | dns.cpp:161 | the ID as the host reads it is the network-order field with its two bytes swapped |
| Wire.Signed | dns.cpp:147 | a length byte read as a `char` is a value from -128 to 127: the byte itself, or the byte minus 256 |
| Wire.Wrap32 | dns.cpp:216 | `len` as a `uint32_t` is the exact value when it fits |
| Wire.Wrap32Congruent | dns.cpp:216 | the wrapped `len` agrees with the exact value modulo 2^32 |
| Wire.PointerMask | dns.cpp:144 | a length byte starts a pointer exactly when its top two bits are set (`& 0xC0 == 0xC0`) |
| Wire.PointerTarget | dns.cpp:211-214 | the pointer target is below 0x4000 and is the low 14 bits of the big-endian 16-bit field at the pointer |
| Names.LabelLen | dns.cpp:250-256 | the label starting at k runs to the next '.' or to the end of the domain |
| Names.NameWire | dns.cpp:246-263 | the encoding of an n-character domain is n + 2 bytes long and ends with a zero byte |
| Names.NameWireSingle | dns.cpp:261-263 | a dot-free domain encodes as its length, its bytes, 00 |
| Names.NameWireCons | dns.cpp:252-258 | a dot-free label l followed by '.' and r encodes as the length of l, l, then the encoding of r |
| Names.NameWireOfLabels | dns.cpp:246-263 | a domain joined from dot-free labels encodes as each label's length byte and bytes, then 00 (the RFC 1035 label form) |
| Names.ExampleEncoding | dns.cpp:246-263 | "example.com" encodes as 07 example 03 com 00 |
| Names.NameWireIsPlainName | dns.cpp:246-263 | the encoding of a valid domain, wherever it lies in a buffer, is an uncompressed name the readers recognise |
| Names.LengthByte | dns.cpp:254 | in an uncompressed name of a valid domain each label's length byte lies between 1 and 63, so it is neither a terminator nor a pointer |
| Names.PlainNameAtPrefix | dns.cpp:159 | a name in a datagram stays in place in the larger buffer the datagram is received into |
| Names.NameEnd | dns.cpp:140-151 | a found name end is past 0 and at most one past the buffer; a start outside the buffer is the fault `OutOfBounds` |
| Names.NameEndFrom | dns.cpp:140-151 | a found name end is past 0 and at most one past the buffer |
| Names.SkipLabels | dns.cpp:142-150 | from any label start, the skipper walks the remaining labels and stops one past a zero byte or two past a pointer's first byte |
| Names.SkipPlainName | dns.cpp:140-151 | an uncompressed n-character name at src ends at src + n + 2 |
| Names.SkipPointerEndedName | dns.cpp:140-151 | labels of n characters ended by a pointer end at src + n + 3 |
| Names.SkipAdvances | dns.cpp:140-151 | when no byte from the cursor on is a negative non-pointer length (0x80..0xBF), a found end lies after the start |
| Names.SkipStepsBack | dns.cpp:147 | a length byte of 0xBF makes the skipper end before where it started: on 00, 63 bytes 01 and BF, the skip from 64 ends at 1 |
| Names.DecodeFrom | dns.cpp:218-235 | the decoder loop emits at most as many characters as it has room for |
| Names.DecodeName | dns.cpp:204-238 | the decoder emits at most cap characters, and it completes only when its first two bytes are inside the buffer |
| Names.DecodeShift | dns.cpp:224-225 | the decoder's state at a pointer depends only on the pointer's offset (resetting `len` and `i` to zero) |
| Names.DecodeLabelStep | dns.cpp:218-234 | over the labels of a valid domain each turn of the decoder emits the next character of the domain, with '.' for every length byte after the first |
| Names.DecodeLabels | dns.cpp:218-234 | with enough room the decoder emits all the characters of the labels from index i on |
| Names.DecodeLabelsCut | dns.cpp:218-234 | without enough room the decoder emits exactly the room's worth of the labels and stops |
| Names.DecodePlainFrom | dns.cpp:216-237 | decoding an uncompressed name with enough room gives the domain back and completes |
| Names.DecodePlainName | dns.cpp:204-238 | decoding an uncompressed name of d gives d when it fits the cap, and its first cap characters otherwise |
| Names.DecodeLeadingPointer | dns.cpp:211-216 | a name that starts with a pointer to a non-pointer byte decodes as the name at the pointer's target |
| Names.DecodePointerToPlain | dns.cpp:222-228 | a pointer met where a length byte is due adds '.' and the whole target name |
| Names.DecodePointerEndedName | dns.cpp:204-238 | labels d ended by a pointer to the name d2 decode to d '.' d2 |
| Names.SelfLoopFills | dns.cpp:218-235 | on a name whose pointer refers back to its own start, the decoder fills exactly its room and stops |
| Names.NameOverflowWitness | dns.cpp:218-237 | as written (cap 64) the decoder emits 64 characters on a pointer cycle, so its NUL goes to index 64 of the 64-byte field |
| Names.CorrectedNameFits | dns.cpp:218-237 | with cap 63 every decoded name leaves room for the NUL, and a cycle is cut at exactly 63 characters |
| Messages.Header | dns.cpp:265-268 | the 12-byte header reads back as the ID in host order, flags with only RD set, QDCOUNT 1 and zero ANCOUNT, NSCOUNT and ARCOUNT |
| Messages.Question | dns.cpp:270-272 | QTYPE reads back as the type code and QCLASS as IN |
| Messages.QueryPacket | dns.cpp:240-272 | the query for an n-character domain is 12 + n + 6 bytes: the header first and the question last |
| Messages.QueryPacketAt | dns.cpp:240-272 | the query for an n-character domain is 12 + n + 6 bytes: header, encoded name at 12, QTYPE and QCLASS |
| Messages.QueryAtIff | dns.cpp:240-272 | the three parts of the query lie in a buffer exactly when the buffer begins with the query |
| Messages.QueryFields | dns.cpp:265-272 | a query reads back as: the ID in host order, flags with only RD set, QDCOUNT 1, zero ANCOUNT/NSCOUNT/ARCOUNT, the type code and class IN after the name |
| Messages.QueryEndsForA | dns.cpp:270-272 | a query for an A record ends with 00 01 00 01 |
| Messages.ExampleQuery | dns.cpp:240-272 | the byte-exact A query for "example.com" |
| Messages.QueryReadsBack | dns.cpp:140-151 | the question's name is found by the skipper at 12 + n + 2, and it decodes back to the domain |
| Messages.NameRefAtPrefix | dns.cpp:159 | a response name stays in place in a larger buffer |
| Messages.RecordAtPrefix | dns.cpp:159 | a resource record stays in place in a larger buffer |
| Messages.RecordsAtPrefix | dns.cpp:159 | a sequence of records stays in place in a larger buffer |
| Messages.ResponseAtPrefix | dns.cpp:159 | a response stays a response when the buffer holds more bytes after it |
| Messages.AnswerAddress | dns.cpp:153-169 | the result is 0 when the ID is not the query's or ANCOUNT is 0, and a non-zero result is only returned when the ID is the query's and ANCOUNT is not 0 |
| Messages.MxRecords | dns.cpp:184-201 | the walk over ANCOUNT answers yields at most ANCOUNT results |
| Messages.MxHostsFit | dns.cpp:196 | every exchange name the walk yields has at most cap characters |
| Messages.Truncated | dns.cpp:218 | the cut name has at most cap characters, is a prefix of the name, and is the whole name when it fits |
| Messages.OwnerEnd | dns.cpp:189 | a record's owner name ends where its bytes end, for a literal name or the pointer C0 0C |
| Messages.NameRefDecodes | dns.cpp:196 | an exchange name, literal or a pointer to the question, decodes to the domain it stands for, cut to the cap |
| Messages.RecordFields | dns.cpp:189-200 | the skipper finds the end of a record's name, and TYPE, RDLENGTH, preference and exchange name are read where the record holds them |
| Messages.WalkMxStep | dns.cpp:189-200 | the walk over an MX record adds its preference and exchange name and goes on after the record |
| Messages.WalkOtherStep | dns.cpp:189-200 | the walk over a record of another type goes on after it |
| Messages.WalkStep | dns.cpp:187-201 | one turn of the walk adds the record's MX answer, if it has one, and goes on after the record |
| Messages.WalkRecords | dns.cpp:184-201 | the walk over the records of a response yields their MX answers, in order, and completes |
| Messages.AddressOfResponse | dns.cpp:161-168 | for a response to the query, the A parser returns the first four data bytes of the first answer, whatever its type |
| Messages.MxOfResponse | dns.cpp:181-201 | for a response to the query, ANCOUNT is the number of records and the walk yields their MX answers |
| DnsClient.Received | dns.cpp:159 | after `recvfrom` the buffer starts with the datagram's first 1024 bytes and keeps its old bytes behind a shorter one |
| DnsClient.ReceivedResponse | dns.cpp:159 | a response that fits is found in the buffer after it arrives, whatever the buffer held |
| DnsClient.MxLookup | dns.cpp:179-201 | after a response to the MX query arrives, its ID matches and the walk yields its MX answers with names cut to 63 characters |
| DnsClient.AddressLookup | dns.cpp:159-168 | after a response to the A query arrives, the A parser returns the first answer's first four data bytes |
| DnsClient.Client.constructor | dns.cpp:99 | a fresh 1024-byte buffer and no results |
| DnsClient.Client.SendRequest | dns.cpp:240-272 | the buffer starts with the query for the domain, type and ID; PacketLen is 12 + n + 6; TransID is the ID; the bytes after the query are unchanged |
| DnsClient.Client.EncodeName | dns.cpp:246-259 | the label loop and its finish leave the encoding of the domain at offset 12 and change no other byte outside it |
| DnsClient.Client.CloseName | dns.cpp:261-263 | the zero byte and the last label's length byte complete the encoding |
| DnsClient.Client.WriteHeader | dns.cpp:265-268 | the header bytes are the ID in host order, 01 00, 00 01 and zeros; the rest of the buffer is unchanged |
| DnsClient.Client.WriteQuestion | dns.cpp:270-272 | QTYPE and class IN at the given offset; nothing else changes |
| DnsClient.Client.SkipAnswerName | dns.cpp:140-151 | the loop returns the name end that `NameEnd` defines |
| DnsClient.Client.NameStart | dns.cpp:211-216 | the decoder's start (after a leading pointer, with the first `len`) gives the same decoding as the name itself, or the fault |
| DnsClient.Client.NextChar | dns.cpp:220-234 | one turn of the decoder loop emits the first character of the remaining decoding and moves to the state that decodes the rest |
| DnsClient.Client.ParseMxRecord | dns.cpp:204-238 | the characters written to dst are the decoding of the name at src, at most cap of them, followed by a NUL when it completes |
| DnsClient.Client.Receive | dns.cpp:159 | the buffer becomes `Received` of its old contents and the datagram |
| DnsClient.Client.ParseARequest | dns.cpp:153-169 | after receiving, the result is `AnswerAddress` of the buffer at PacketLen under TransID |
| DnsClient.Client.ReadAddress | dns.cpp:161-168 | the checks and reads of the A parser compute `AnswerAddress` |
| DnsClient.Client.ParseMxRequest | dns.cpp:171-202 | on a foreign ID the results are unchanged; otherwise the results are what the walk over ANCOUNT answers from PacketLen yields |
| DnsClient.Client.ReadAnswer | dns.cpp:189-200 | one turn of the MX loop gives the walk's first entry (if any) and the cursor of the next answer, or the fault that ends the walk |
| DnsClient.Client.ReadMxAnswers | dns.cpp:184-201 | the loop over ANCOUNT answers collects exactly what `MxRecords` yields |
| DnsClient.Client.GetIpHost | dns.cpp:284-288 | the A query then the A parse: PacketLen is the query's length, the buffer holds the datagram received over the sent query, and the result is `AnswerAddress` of it; for every response to the query (ID, ANCOUNT, question, answers) whose first answer has four data bytes or more, those bytes are returned |
| DnsClient.Client.GetMxHost | dns.cpp:290-297 | the MX query then the MX parse: PacketLen is the query's length, the buffer holds the datagram received over the sent query, a foreign ID leaves the old results, and a matching one gives what the walk yields; for every response to the query the result is its MX answers in order, and its length is the returned count |

## Findings

| source | as written | input that shows it | evidently intended | confidence | as-written member | corrected member |
|---|---|---|---|---|---|---|
| dns.cpp:218-237 | the decoder loop runs while `j < 64`, then writes the NUL at `dst[j]`. `dst` is the 64-byte `Data` field of an MX result (dns.cpp:51-55) | an exchange name at offset t made of 01 'a' C0 t (a pointer back to itself); so does any name of 64 characters or more. Sixty-four characters are written and the NUL goes to `Data[64]`, one past the field | at most 63 characters, so that the NUL fits in the field | not executed | Names.NameOverflowWitness | Names.CorrectedNameFits |

The MX parser in the model decodes with the corrected cap `HOST_CAP` = 63
(`DnsClient.Client.ReadAnswer`). `Names.SOURCE_CAP` = 64 is the cap as
written.

## Left out

- Sockets are left out: `socket`, `sendto`, the nameserver address and `recvfrom`'s own behaviour. The datagram a server sends is a parameter of the parsers. `recvfrom` is modelled as copying it into the buffer (`Receive`), and its return value is ignored, as in the source.
- `GetNameServer` (reading `/etc/resolv.conf`) is left out: it is file I/O outside the codec.
- `srand`/`rand` are left out: the transaction ID is a parameter of `SendRequest`.
- The destructor and the `dns_get_client` singleton are left out, and so are the socket set-up and `Results.reserve(6)` in the constructor. They are lifecycle code with no effect on the codec.
- `dns.h` only declares the C entry points and is not part of this model.
- DnsClient.Client.SendRequest: requires a domain without NUL bytes whose query fits the buffer. A C string has no NUL inside it. A longer domain overflows the buffer in the source, which is undefined behaviour.
- Names.NameEnd: the `Endless` fault stands for a skipper that never stops. The pigeonhole argument is not proved: after as many moves as the buffer has bytes, a cursor that has not stopped has visited some position twice.
- Reads outside the buffer are undefined behaviour in the source. The model reports them as `OutOfBounds` and ends the operation there. In particular the MX walk then keeps the entries finished before the fault and does not add the entry being decoded, which the source has already appended.
- DnsClient.Client.ReadAnswer: checks that all ten fixed bytes of the answer lie in the buffer before it reads TYPE. The source reads TYPE and RDLENGTH without a check. The two differ only on reads past the buffer.
- Byte order is fixed to a little-endian host, as stated above. The A parser's result is given as the big-endian value of the four address bytes. The source returns the same four bytes as an `in_addr_t`.
- DnsClient.Client.GetIpHost: the relation to a server's answer is stated only for responses of the `ResponseAt` form. For any other datagram the result is `AnswerAddress` of the buffer, which the method's contract gives exactly: the sent query with the datagram received over it.
- DnsClient.Client.ReadAnswer: decodes an exchange name with the corrected cap of 63 characters, and so do `ParseMxRequest`, `GetMxHost` and `DnsClient.MxLookup`. The source allows 64 characters and then a NUL past `Data`; for example, a name whose first label has 63 characters and which goes on with a second label gives 64 characters in the source and 63 in the model.
- Messages.ResponseAt: describes responses whose names are literal or the pointer C0 0C to the question. Other compressed forms are covered by the `Names` lemmas on names in a packet, not by the response-level lemmas.
