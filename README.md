# DNS client codec, modelled in Dafny

A model of the message codec of a small DNS client written in Java. The client has two
copies of its codec:

- `src/DnsClient.java`: `composeDNSQuery` builds one query (RFC 1035 sections 4.1.1 and 4.1.2).
  `parseDNSResponse` decodes the reply: header flags and RCODE, the question name, then the
  answer, authority and additional records, one printed line per record.
  `parseAnswer` decodes one record. `parseName` reads a name with compression pointers
  (RFC 1035 section 4.1.4). `parsePointerOrName` resolves a pointer by cutting the question
  name string.
- `src/main.java`: an older version. Its `composeDNSQuery` and `QueryType` are the same code.
  Its `parseDNSResponse` reads the question as plain labels and decodes exactly one answer.

Modules:

- `JavaBytes`: Java bytes (-128..127) and exceptions. It also holds the library calls the
  codec relies on, modelled to their documented behaviour: `Arrays.copyOfRange`,
  `String.split("\\.")`, `String.join`, `Byte.toUnsignedInt`, 32-bit `int` wrap-around.
- `QueryTypes`: `QueryType` with `getCode` and `valueOf`.
- `Encoder`: `composeDNSQuery`. The query is a function `QueryBytes`; the method
  `ComposeQuery` keeps the source's nested loops and is proved equal to it.
- `NameReader`: `parseName`, as the function `ReadName` and as the recursive method `ParseName`.
- `Decoder`: `parsePointerOrName`, `parseAnswer` and `parseDNSResponse` of DnsClient.java.
  Each is a specification function (`PointerOrName`, `Answer`, `Response`) paired with a
  method that follows the source statement by statement.
  A response is what it prints: a sequence of `Line`s. It ends either normally or with the
  Java exception that ended it.
- `LegacyClient`: `parseDNSResponse` of main.java, modelled the same way (`LegacyResponse`).
  The values it computes and drops (owner, TYPE, TTL, RDLENGTH, address) are returned in
  the outcome.
- `RoundTrip`: reading back the queries the encoder builds. `EncodedAt` says that labels are
  written out at an offset of a buffer.
- `DecoderProperties` and `LegacyProperties`: what the two decoders do on the records
  RFC 1035 describes, and where they depart from it.

Three inputs are not bytes of the message, so they become parameters:

- `id` stands for `Math.random() * 65536`.
- `depth` stands for the Java stack. It counts the nested pointer hops `parseName` can still
  make; one more throws `StackOverflow`.
- Names are byte strings. `String.getBytes()` and `new String(bytes, "UTF-8")` are taken as
  the identity.

Where the code departs from RFC 1035, the model follows the code:

- Section 4.1.4 says a pointer ends a name. `parseName`'s loop reads on after a pointer's
  two bytes and stops only on a zero byte (`DecoderProperties.CompressedName`).
- Section 4.1.4 puts the end of a compressed name right after its pointer. `parseName`
  returns:
  - the byte right after the pointer, for a name that is a pointer followed by a zero
    byte; when the byte after the pointer is not 0, the loop goes on, and the cursor is
    the zero byte that finally stops it;
  - for labels followed by a pointer and a zero byte, one past that zero byte: p+W+3
    instead of p+W+2, where W is the wire length of the labels (`DecoderProperties.CompressedName`).
- `parsePointerOrName`, and `parseAnswer` for a pointer owner, leave the cursor on the
  pointer's second byte, not after it. `parseAnswer` then moves on 2 and reads only TYPE's
  low byte, which carries every code `valueOf` knows (`DecoderProperties.PointerSuffix`,
  `DecoderProperties.PointerOwnerHead`).
- Section 4.1.3 ends a record after RDLENGTH bytes of RDATA. The code returns RDLENGTH's
  second byte when RDLENGTH is 0. For CNAME, NS and MX it returns where the name reader
  stopped (`DecoderProperties.EmptyRdataRecord`, `DecoderProperties.NameRecord`,
  `DecoderProperties.MailExchangeRecord`).
- The code has no guard against pointer cycles: a cycle ends in a stack overflow at every
  depth (`NameReader.SelfPointerOverflows`).
- Section 4.1.3 makes the TTL an unsigned 32-bit number. DnsClient.java masks it to that;
  main.java keeps it as a signed `int` (`LegacyProperties.SignedTtlOfTtl`).
- CLASS other than 1 is a warning in DnsClient.java. In main.java it ends the decoding
  (`LegacyProperties.ClassNotOneStops`).

## Model

| member | source | states |
|---|---|---|
| QueryTypes.ValueOf | src/DnsClient.java:27-29 | a type is found exactly for the codes 1, 2, 5 and 15, and the type found has that code; main.java's `QueryType` (lines 11-24) is the same enum |
| QueryTypes.FindFirst | src/DnsClient.java:28 | the stream filter returns a value of the list whose code matches, and returns nothing only when no value of the list has the code |
| QueryTypes.ValueOfCode | src/DnsClient.java:17-29 | `valueOf(t.getCode())` is `t` for every type, so the four codes are distinct |
| JavaBytes.CopyOfRange | src/DnsClient.java:262 | `Arrays.copyOfRange` throws IllegalArgument for a reversed range and ArrayIndexOutOfBounds for a start past the end; otherwise it returns `to - from` bytes, the buffer's bytes where they exist and zeros past its end |
| JavaBytes.Octets | src/DnsClient.java:327-329 | each address byte becomes a number in 0..255 equal to the byte modulo 256, one per byte |
| JavaBytes.UnsignedOctets | src/DnsClient.java:325-330 | the loop over the address bytes yields exactly `Octets` of them |
| JavaBytes.ToInt32 | src/main.java:223 | the `int` sum lies in the signed 32-bit range and equals the exact sum modulo 2^32 |
| JavaBytes.SplitJoin | src/DnsClient.java:144 | `split("\\.")` of non-empty, dot-free labels joined with dots gives the labels back |
| Encoder.EncodeLabels | src/DnsClient.java:145-155 | the encoded labels take one length byte plus the label's bytes each |
| Encoder.QueryBytes | src/DnsClient.java:119-174 | ID low byte first and recoverable; RD the only flag set; QDCOUNT 1 and the other counts 0; QNAME the encoded labels of `split(name)` and a zero byte; QTYPE the type's code; QCLASS 1; and the total length |
| Encoder.EncodeLabelsSnoc | src/DnsClient.java:145-155 | adding one label appends its length byte, cast to a byte, and then its bytes |
| Encoder.ComposeQuery | src/DnsClient.java:119-174 | the header, then the label loop with its byte-copy loop, then the tail, build exactly `QueryBytes`; main.java's `composeDNSQuery` (lines 104-159) is the same code |
| NameReader.PointerOffset | src/DnsClient.java:252 | a pointer's masked offset lies in 0..16383 |
| NameReader.SignedPointerOffset | src/DnsClient.java:234 | the unmasked pointer sum of `parsePointerOrName` (and main.java:205) is the masked offset, less 256 when the low byte is 0x80 or more |
| NameReader.ParseName | src/DnsClient.java:245-276 | the loop with its recursive call on pointers returns exactly `ReadName`: the dotted name and the cursor, or the exception that stops it |
| NameReader.SelfPointerOverflows | src/DnsClient.java:251-253 | a pointer to itself overflows the stack at every depth, because the source has no cycle guard |
| NameReader.PointerPairOverflows | src/DnsClient.java:251-253 | two pointers to each other also overflow at every depth |
| Decoder.RcodeReport | src/DnsClient.java:188-198 | each RCODE message is printed exactly for its code; "not found" needs AA as well; RCODE 0, 3 without AA and 6..15 print nothing |
| Decoder.Ttl | src/DnsClient.java:308 | the masked TTL lies in 0..2^32-1 |
| Decoder.ParsePointerOrName | src/DnsClient.java:230-243 | the method returns exactly `PointerOrName`: the question-name cut for a pointer, or `parseName` otherwise |
| Decoder.ParseRecordHead | src/DnsClient.java:279-305 | owner name, TYPE and CLASS are read as `RecordHead` says, including the skip of both in the authority section |
| Decoder.ParseRecordData | src/DnsClient.java:316-356 | the `switch` over A, CNAME, MX and NS prints and advances as `RecordData` says |
| Decoder.ParseRecordTail | src/DnsClient.java:307-358 | TTL, RDLENGTH, the early return on RDLENGTH 0 and the RDATA follow `RecordTail` |
| Decoder.ParseAnswer | src/DnsClient.java:278-359 | `parseAnswer` prints the CLASS warning, then the record line, and returns the cursor, all as `Answer` says |
| Decoder.RecordsStep | src/DnsClient.java:211-213 | a run of records is the first record's output, then the rest from its cursor; an exception ends the run |
| Decoder.ParseRecordStep | src/DnsClient.java:212 | one iteration of the counted loop is the first step of the run |
| Decoder.ParseRecords | src/DnsClient.java:211-213 | the counted loop yields exactly `Records` for `max(count, 0)` records |
| Decoder.ParseSection | src/DnsClient.java:208-213 | a section prints its banner only for a positive count, then its records |
| Decoder.ParseSections | src/DnsClient.java:208-227 | answer, authority and additional sections in order, the authority one skipped without interpretation |
| Decoder.ParseDNSResponse | src/DnsClient.java:176-228 | the whole decoder prints and throws exactly as `Response` says |
| DecoderProperties.TtlUnsignedIff | src/DnsClient.java:307-308 | the masked TTL equals the unsigned big-endian value exactly when bytes 2 to 4 are below 0x80; a negative byte there borrows from the bytes above |
| DecoderProperties.NegativeCountSkipsSection | src/DnsClient.java:180-182 | a count with its high byte at 0x80 or more is negative: no banner, no record, cursor unchanged |
| DecoderProperties.AuthorityRecordsSilent | src/DnsClient.java:217-220 | authority records print nothing, whatever they hold |
| DecoderProperties.UnknownTypeThrows | src/DnsClient.java:280-298 | after a pointer owner, an unknown TYPE (its low byte at p+3) makes `.get()` throw NoSuchElement before anything is printed |
| DecoderProperties.EmptyRdataRecord | src/DnsClient.java:311-314 | RDLENGTH 0 returns RDLENGTH's second byte and prints no record line, only the CLASS warning |
| DecoderProperties.SkippedRecord | src/DnsClient.java:319-320 | an authority record with positive RDLENGTH is skipped silently to the byte after its RDATA |
| DecoderProperties.AddressRecord | src/DnsClient.java:323-333 | an A record prints its RDATA as unsigned octets with the masked TTL and the AA marker, and returns the byte after RDATA |
| DecoderProperties.MailExchangeRecord | src/DnsClient.java:341-347 | MX reads a signed 2-byte preference and then the exchange name, and continues where the name reader stopped, whatever RDLENGTH says |
| DecoderProperties.NameRecord | src/DnsClient.java:335-354 | a CNAME or NS record with a pointer owner and positive RDLENGTH prints, after the CLASS warning, the name read from the first RDATA byte and continues where that read stopped, whatever RDLENGTH says; an RDATA pointer leaves the cursor on its own second byte |
| DecoderProperties.UncompressedOwnerThrows | src/DnsClient.java:285-298 | an owner written out as labels makes `parseAnswer` read CLASS's high byte as TYPE; for class IN (high byte 0) `.get()` throws |
| DecoderProperties.LabelOwnerHead | src/DnsClient.java:285-305 | after an owner that is not a pointer, with `n` the cursor `parseName` returned: TYPE is the byte at n+2 (an unknown one throws NoSuchElement), CLASS the bytes n+3 and n+4, TTL starts at n+5; the authority section reads neither |
| DecoderProperties.PointerOwnerHead | src/DnsClient.java:281-305 | after a pointer owner, TYPE is the byte at +3, CLASS the bytes at +4 and +5, and TTL starts at +6 |
| DecoderProperties.FixedTail | src/DnsClient.java:307-333 | RDLENGTH 0 returns its second byte; a skipped record ends after RDATA; an A record prints its octets |
| DecoderProperties.CompressedName | src/DnsClient.java:245-276 | labels then a pointer read as the labels plus the target's name, joined with dots; the cursor is past the zero byte after the pointer, or on it when the name is the pointer alone |
| DecoderProperties.LoopThroughPointer | src/DnsClient.java:248-270 | the loop walks the labels, follows the pointer, and stops on the zero byte after it |
| DecoderProperties.ReadPointerName | src/DnsClient.java:247-273 | a name that starts with a pointer returns the zero byte's index, not the index past it |
| DecoderProperties.PointerThenZero | src/DnsClient.java:251-256 | a pointer followed by a zero byte adds the target's name and ends the loop two bytes on |
| DecoderProperties.ExampleCompressedName | src/DnsClient.java:245-276 | RFC 1035's example: "www" and then a pointer to "example.com" reads as "www.example.com" |
| DecoderProperties.PointerSuffix | src/DnsClient.java:230-243 | a pointer cuts the question name at its offset less 12, with the low byte read signed (so 256 lower when that byte is 0x80 or more), and returns the pointer's second byte, or throws StringIndexOutOfBounds; a pointer in the last byte throws ArrayIndexOutOfBounds; anything else is read by `parseName` |
| DecoderProperties.QuestionPointerAgrees | src/DnsClient.java:230-243 | for a pointer into the question's labels (low byte below 0x80), the string cut equals the name `parseName` reads there |
| DecoderProperties.QuestionLabelRead | src/DnsClient.java:245-276 | `parseName` at the j-th question label reads the remaining labels and stops past the question's zero byte |
| DecoderProperties.HeaderFirst | src/DnsClient.java:176-198 | a buffer shorter than the header throws before printing; otherwise the header lines come first, whatever RCODE says |
| DecoderProperties.AnswerBannerFollowsHeader | src/DnsClient.java:199-210 | with a readable question and positive ANCOUNT, the answer banner follows the header lines |
| DecoderProperties.NoRecordsOnlyHeader | src/DnsClient.java:199-227 | when no count is positive, only the header lines are printed and the decoder returns |
| DecoderProperties.AuthorityBetween | src/DnsClient.java:214-227 | between the answer lines and the additional section, the authority section adds only its banner |
| RoundTrip.ReadEncodedName | src/DnsClient.java:245-276 | `parseName` at encoded labels ending in a zero byte returns the labels joined with dots and the index past the zero byte; the root name (a lone zero byte) reads as the empty name |
| RoundTrip.NameLoopOverLabels | src/DnsClient.java:248-270 | the `parseName` loop walks encoded labels one at a time, whatever follows |
| RoundTrip.ReadLabelName | src/DnsClient.java:271-274 | a name that does not start with a pointer returns one past the zero byte |
| RoundTrip.QuestionLoopOverLabels | src/main.java:184-197 | main.java's question loop walks encoded labels one at a time |
| RoundTrip.ReadEncodedQuestion | src/main.java:184-197 | main.java's question loop stops on the zero byte with the labels |
| RoundTrip.QueryEncodedAt | src/DnsClient.java:141-156 | the query of a name with 1..63-byte, dot-free labels holds those labels, and then the zero byte |
| RoundTrip.QueryRoundTrip | src/DnsClient.java:200-205 | `parseName` on a built query gives back the name, and the cursor plus 4 is the end of the query |
| RoundTrip.LegacyQueryRoundTrip | src/main.java:181-199 | main.java's question loop on a built query gives back the labels, and the zero byte plus 5 is the end of the query |
| RoundTrip.EmptyNameQuery | src/DnsClient.java:144-147 | the empty name becomes one empty label; `parseName` stops on its zero length byte, one byte short of the query's end |
| LegacyClient.SignedTtl | src/main.java:223 | the TTL is a signed 32-bit value |
| LegacyClient.ParseHeader | src/main.java:161-179 | a buffer shorter than the header throws; otherwise the RCODE line, with no recursion line |
| LegacyClient.ParseQuestion | src/main.java:180-197 | the label loop from offset 12 returns exactly `QuestionLabels` |
| LegacyClient.ParseRecordValues | src/main.java:220-237 | TTL, RDLENGTH and the A address are read as `RecordValues` says |
| LegacyClient.ParseAnswer | src/main.java:201-237 | owner, TYPE, CLASS and the rest are read as `AnswerFields` says |
| LegacyClient.ParseDNSResponse | src/main.java:161-249 | the whole older decoder prints and throws exactly as `LegacyResponse` says |
| LegacyProperties.HighQuestionByteThrows | src/main.java:184-189 | a first question byte of 0x80 or more (a pointer among them) is a negative length, so `copyOfRange` throws right after the RCODE line |
| LegacyProperties.ReadersAgreeOnQuestion | src/main.java:183-199 | on a question of plain labels, the root name included, both decoders read the same dotted name and reach the same answer offset |
| LegacyProperties.OwnerMatchesPointerOrName | src/main.java:203-209 | the owner is cut from the question name exactly as DnsClient.java's `parsePointerOrName` cuts it, with the same exception; any other owner is not read |
| LegacyProperties.UnknownTypeThrows | src/main.java:212 | an unknown TYPE makes `.get()` throw NoSuchElement |
| LegacyProperties.PointerAddressRecord | src/main.java:203-237 | for an A record with a pointer owner and class 1, the address is RDATA as unsigned octets with a signed TTL; a negative RDLENGTH throws IllegalArgument |
| LegacyProperties.AddressValues | src/main.java:221-237 | the fields after CLASS of an A record are the signed TTL, RDLENGTH and the octets of RDATA |
| LegacyProperties.SignedTtlOfTtl | src/main.java:223 | the signed TTL equals DnsClient.java's masked TTL below 2^31, and is 2^32 less above |
| LegacyProperties.QuestionFromPrefix | src/main.java:161-199 | RCODE, AA and the question depend only on the bytes up to the question's zero byte |
| LegacyProperties.ClassNotOneStops | src/main.java:215-219 | once CLASS is not 1 the answer is rejected, whatever bytes follow |
| LegacyProperties.ClassRejectedFields | src/main.java:215-219 | a known TYPE followed by a CLASS other than 1 rejects the answer |
| LegacyProperties.QuestionRunAhead | src/main.java:184-197 | the question loop stops on a zero byte at or after where it started |
| LegacyProperties.QuestionLocal | src/main.java:184-197 | the question loop reads nothing past its zero byte |
| LegacyProperties.OwnerLocal | src/main.java:203-209 | reading the owner uses no byte from TYPE on |
| LegacyProperties.HeaderLocal | src/main.java:162-164 | AA and RCODE depend on the header bytes only |

## Left out

- Argument parsing, the socket, the retry loop, the timing and the usage messages in
  `main` of both files. They are I/O around the codec.
- The 1024-byte receive buffer. The decoders take a buffer of any length, which includes
  the 1024 bytes the client passes them.
- main.java's dump of the raw reply (`new String(receivePacket.getData())`). It is I/O only.
- The random query ID. `id` is a parameter in 0..65535.
- Character sets: labels are bytes both ways. `getBytes()` and `new String(..., "UTF-8")`
  are taken as the identity, so non-ASCII names and malformed UTF-8 are not modelled.
- The text of the printed lines (`String.format`, tabs, "auth"/"noauth"). A line is a
  `Line` value with the same data. So the difference between main.java's "Name error"
  and DnsClient.java's "NOT FOUND" wording is not kept.
- The JVM stack size. `depth` bounds the nested pointer hops instead; a hop beyond it is
  `StackOverflow`.
- `javafx.util.Pair`. It is the `NameAt` datatype.
- LegacyProperties.ClassNotOneStops: states that the answer decoding is the same rejection.
  The equality of the whole `LegacyResponse` follows from its definition together with
  `LegacyProperties.QuestionFromPrefix`, but is not stated as one lemma.
