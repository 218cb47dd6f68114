/** The response decoder of DnsClient.java: `parseDNSResponse`, `parseAnswer` and
    `parsePointerOrName`. The header (RFC 1035 section 4.1.1) gives the flags, RCODE and the
    section counts; then the question name is read, then ANCOUNT, NSCOUNT and ARCOUNT
    resource records (section 4.1.3), each printed as one line.

    Reads are not masked where the source does not mask them, so a byte of 0x80 or more
    counts as negative in counts, TTL bytes, the MX preference and the low byte of a pointer
    taken by `parsePointerOrName`. */
module Decoder {
  import opened JavaBytes
  import opened QueryTypes
  import opened Encoder
  import opened NameReader

  /** The RCODE messages `parseDNSResponse` prints. */
  datatype RcodeMessage = FormatError | ServerFailure | NameNotFound | NotImplemented | Refused

  datatype Section = AnswerSection | AuthoritySection | AdditionalSection

  /** The lines printed on standard output, without their formatting. */
  datatype Line =
    | RecursionUnsupported
    | RcodeLine(rcode: int, message: RcodeMessage)
    | Banner(section: Section, count: int)
    | ClassNotOne
    | IpLine(octets: seq<int>, ttl: int, auth: bool)
    | CnameLine(alias: Bytes, ttl: int, auth: bool)
    | MxLine(exchange: Bytes, preference: int, ttl: int, auth: bool)
    | NsLine(server: Bytes, ttl: int, auth: bool)

  /** What a step printed, and how it ended. */
  datatype Emitted<+T> = Emitted(lines: seq<Line>, outcome: Outcome<T>)

  /** `lines` printed first, then `e`. */
  function Prefix<T>(lines: seq<Line>, e: Emitted<T>): Emitted<T>
  {
    Emitted(lines + e.lines, e.outcome)
  }

  // ---------------------------------------------------------------- header

  /** `response[2] & 0x4`: the AA bit. */
  predicate Authoritative(buf: Bytes)
    requires |buf| >= HeaderLength
  {
    U8(buf[2]) / 4 % 2 == 1
  }

  /** `response[3] & 0x80`: the RA bit. */
  predicate RecursionAvailable(buf: Bytes)
    requires |buf| >= HeaderLength
  {
    U8(buf[3]) / 128 == 1
  }

  /** `response[3] & 0xF`: the RCODE. */
  function Rcode(buf: Bytes): int
    requires |buf| >= HeaderLength
  {
    U8(buf[3]) % 16
  }

  /** `(hi << 8) + lo` on signed bytes, as the source reads counts, CLASS, RDLENGTH and the
      MX preference. */
  function SignedWord(hi: JByte, lo: JByte): int
  {
    hi * 256 + lo
  }

  /** The section counts at offsets 6, 8 and 10. */
  function AnCount(buf: Bytes): int requires |buf| >= HeaderLength { SignedWord(buf[6], buf[7]) }
  function NsCount(buf: Bytes): int requires |buf| >= HeaderLength { SignedWord(buf[8], buf[9]) }
  function ArCount(buf: Bytes): int requires |buf| >= HeaderLength { SignedWord(buf[10], buf[11]) }

  /** The RCODE message chosen by `parseDNSResponse`'s if-chain; RCODE 3 is reported only
      with AA set, and RCODE 0 or above 5 prints nothing. */
  function RcodeReport(rcode: int, aa: bool): (m: Option<RcodeMessage>)
    ensures m == Some(FormatError) <==> rcode == 1
    ensures m == Some(ServerFailure) <==> rcode == 2
    ensures m == Some(NameNotFound) <==> rcode == 3 && aa
    ensures m == Some(NotImplemented) <==> rcode == 4
    ensures m == Some(Refused) <==> rcode == 5
    ensures m == None <==> rcode !in {1, 2, 3, 4, 5} || (rcode == 3 && !aa)
  {
    if rcode == 1 then Some(FormatError)
    else if rcode == 2 then Some(ServerFailure)
    else if rcode == 3 && aa then Some(NameNotFound)
    else if rcode == 4 then Some(NotImplemented)
    else if rcode == 5 then Some(Refused)
    else None
  }

  function RcodeLines(rcode: int, aa: bool): seq<Line>
  {
    match RcodeReport(rcode, aa)
    case None => []
    case Some(m) => [RcodeLine(rcode, m)]
  }

  /** The lines printed from the header: the RA warning, then the RCODE message. */
  function HeaderLines(buf: Bytes): seq<Line>
    requires |buf| >= HeaderLength
  {
    (if RecursionAvailable(buf) then [] else [RecursionUnsupported])
      + RcodeLines(Rcode(buf), Authoritative(buf))
  }

  // ---------------------------------------------------------------- record fields

  /** The TTL: `((b0 << 24) + (b1 << 16) + (b2 << 8) + b3) & 0xffffffffL`. The int sum wraps
      and the mask keeps 32 bits, so the TTL is the exact sum taken modulo 2^32. */
  function Ttl(b0: JByte, b1: JByte, b2: JByte, b3: JByte): (ttl: int)
    ensures 0 <= ttl < 0x1_0000_0000
  {
    (b0 * 0x100_0000 + b1 * 0x1_0000 + b2 * 0x100 + b3) % 0x1_0000_0000
  }

  /** The big-endian unsigned value of four bytes (what RFC 1035 means by the TTL). */
  function UnsignedBE(b0: JByte, b1: JByte, b2: JByte, b3: JByte): int
  {
    U8(b0) * 0x100_0000 + U8(b1) * 0x1_0000 + U8(b2) * 0x100 + U8(b3)
  }

  /** `parsePointerOrName(buf, i, qName)`: a pointer is resolved by cutting the question name
      at `pointer - 12` (the pointer's low byte is NOT masked here), and the cursor returned
      is the pointer's second byte; anything else goes to `parseName`. */
  function PointerOrName(buf: Bytes, i: int, qName: Bytes, depth: nat): Outcome<NameAt>
  {
    var b :- Read(buf, i);
    if IsPointer(b) then
      var lo :- Read(buf, i + 1);
      var startIndex := SignedPointerOffset(b, lo) - HeaderLength;
      if 0 <= startIndex <= |qName| then Done(NameAt(qName[startIndex..], i + 1))
      else Threw(StringIndexOutOfBounds)
    else ReadName(buf, i, depth)
  }

  /** `parsePointerOrName`, as the source runs it. */
  method ParsePointerOrName(buf: Bytes, start: int, qName: Bytes, depth: nat) returns (r: Outcome<NameAt>)
    ensures r == PointerOrName(buf, start, qName, depth)
  {
    var i := start;
    var name: Bytes;
    var b :- Read(buf, i);
    var isPointer := IsPointer(b);
    if isPointer {
      i := i + 1;
      var lo :- Read(buf, i);
      var pointer := SignedPointerOffset(b, lo);
      var startIndex := pointer - HeaderLength;
      if !(0 <= startIndex <= |qName|) {
        return Threw(StringIndexOutOfBounds);
      }
      name := qName[startIndex..];
    } else {
      var nameIndexPair :- ParseName(buf, i, depth);
      i := nameIndexPair.next;
      name := nameIndexPair.name;
    }
    r := Done(NameAt(name, i));
  }

  // ---------------------------------------------------------------- one record

  /** What `parseAnswer` knows once it has read the owner name, TYPE and CLASS: where the
      TTL starts, the record type (None in the authority section, which reads neither
      field) and whether CLASS was 1. */
  datatype RecordStart = RecordStart(ttlAt: int, qType: Option<QueryType>, classIsOne: bool)

  /** The cursor after the record, and the line printed for it, if any. */
  datatype RecordEnd = RecordEnd(next: int, line: Option<Line>)

  /** The first part of `parseAnswer`: owner name, then TYPE (only its low byte is looked
      at) and CLASS. After a pointer owner the cursor sits on the pointer's second byte;
      after any other owner it sits where `parseName` left it; it then moves on 2. */
  function RecordHead(buf: Bytes, i: int, authority: bool, depth: nat): Outcome<RecordStart>
  {
    var first :- Read(buf, i);
    var owner :- ReadName(buf, i, depth);
    var typeAt := (if IsPointer(first) then i + 1 else owner.next) + 2;
    if authority then Done(RecordStart(typeAt + 3, None, true))
    else
      var t :- Read(buf, typeAt);
      var qType :- Get(ValueOf(t));
      var c0 :- Read(buf, typeAt + 1);
      var c1 :- Read(buf, typeAt + 2);
      Done(RecordStart(typeAt + 3, Some(qType), SignedWord(c0, c1) == 1))
  }

  /** The RDATA of a record of type `qType` at `at`, `rdLength` long: A prints its octets
      and skips RDLENGTH bytes; CNAME, NS and MX (after a 2-byte preference) print the name
      `parsePointerOrName` finds and continue where it stopped. */
  function RecordData(buf: Bytes, at: int, rdLength: int, qType: QueryType, ttl: int,
                      qName: Bytes, auth: bool, depth: nat): Outcome<RecordEnd>
  {
    match qType
    case A =>
      var ipBytes :- CopyOfRange(buf, at, at + rdLength);
      Done(RecordEnd(at + rdLength, Some(IpLine(Octets(ipBytes), ttl, auth))))
    case CNAME =>
      var alias :- PointerOrName(buf, at, qName, depth);
      Done(RecordEnd(alias.next, Some(CnameLine(alias.name, ttl, auth))))
    case MX =>
      var p0 :- Read(buf, at);
      var p1 :- Read(buf, at + 1);
      var exchange :- PointerOrName(buf, at + 2, qName, depth);
      Done(RecordEnd(exchange.next, Some(MxLine(exchange.name, SignedWord(p0, p1), ttl, auth))))
    case NS =>
      var server :- PointerOrName(buf, at, qName, depth);
      Done(RecordEnd(server.next, Some(NsLine(server.name, ttl, auth))))
  }

  /** The second part of `parseAnswer`: TTL, RDLENGTH, RDATA. A zero RDLENGTH returns the
      index of RDLENGTH's second byte; an uninterpreted (authority) record skips RDLENGTH
      bytes. */
  function RecordTail(buf: Bytes, ttlAt: int, qType: Option<QueryType>, qName: Bytes,
                      auth: bool, depth: nat): Outcome<RecordEnd>
  {
    var t0 :- Read(buf, ttlAt);
    var t1 :- Read(buf, ttlAt + 1);
    var t2 :- Read(buf, ttlAt + 2);
    var t3 :- Read(buf, ttlAt + 3);
    var r0 :- Read(buf, ttlAt + 4);
    var r1 :- Read(buf, ttlAt + 5);
    var rdLength := SignedWord(r0, r1);
    if rdLength == 0 then Done(RecordEnd(ttlAt + 5, None))
    else
      match qType
      case None => Done(RecordEnd(ttlAt + 6 + rdLength, None))
      case Some(t) => RecordData(buf, ttlAt + 6, rdLength, t, Ttl(t0, t1, t2, t3), qName, auth, depth)
  }

  function LineSeq(line: Option<Line>): seq<Line>
  {
    match line
    case None => []
    case Some(l) => [l]
  }

  /** `parseAnswer(buf, i, qName, auth, authority)`: the CLASS warning (printed as soon as
      CLASS is read), then the record's line, and the cursor it returns. */
  function Answer(buf: Bytes, i: int, qName: Bytes, auth: bool, authority: bool, depth: nat): Emitted<int>
  {
    match RecordHead(buf, i, authority, depth)
    case Threw(e) => Emitted([], Threw(e))
    case Done(head) =>
      var warning := if head.classIsOne then [] else [ClassNotOne];
      match RecordTail(buf, head.ttlAt, head.qType, qName, auth, depth)
      case Threw(e) => Emitted(warning, Threw(e))
      case Done(tail) => Emitted(warning + LineSeq(tail.line), Done(tail.next))
  }

  /** The statements of `parseAnswer` up to the CLASS check: owner name, TYPE, CLASS. */
  method ParseRecordHead(buf: Bytes, start: int, isAuthoritySection: bool, depth: nat)
    returns (r: Outcome<RecordStart>)
    ensures r == RecordHead(buf, start, isAuthoritySection, depth)
  {
    var i := start;
    var b :- Read(buf, i);
    var isPointer := IsPointer(b);
    var nameIndexPair :- ParseName(buf, i, depth);
    if isPointer {
      i := i + 1;
    } else {
      i := nameIndexPair.next;
    }
    i := i + 2;
    if isAuthoritySection {
      i := i + 3;
      return Done(RecordStart(i, None, true));
    }
    var t :- Read(buf, i);
    i := i + 1;
    var qType :- Get(ValueOf(t));
    var c0 :- Read(buf, i);
    i := i + 1;
    var c1 :- Read(buf, i);
    var qClass := SignedWord(c0, c1);
    i := i + 1;
    r := Done(RecordStart(i, Some(qType), qClass == 1));
  }

  /** The `switch (qType)` of `parseAnswer` over the RDATA at `start`. */
  method ParseRecordData(buf: Bytes, start: int, rdLength: int, qType: QueryType, ttl: int,
                         qName: Bytes, authoritative: bool, depth: nat)
    returns (r: Outcome<RecordEnd>)
    ensures r == RecordData(buf, start, rdLength, qType, ttl, qName, authoritative, depth)
  {
    var i := start;
    match qType {
      case A =>
        var ipBytes :- CopyOfRange(buf, i, i + rdLength);
        var ipParts := UnsignedOctets(ipBytes);
        i := i + rdLength;
        r := Done(RecordEnd(i, Some(IpLine(ipParts, ttl, authoritative))));
      case CNAME =>
        var aliasIndexPair :- ParsePointerOrName(buf, i, qName, depth);
        i := aliasIndexPair.next;
        r := Done(RecordEnd(i, Some(CnameLine(aliasIndexPair.name, ttl, authoritative))));
      case MX =>
        var p0 :- Read(buf, i);
        i := i + 1;
        var p1 :- Read(buf, i);
        i := i + 1;
        var preference := SignedWord(p0, p1);
        var aliasIndexPair :- ParsePointerOrName(buf, i, qName, depth);
        i := aliasIndexPair.next;
        r := Done(RecordEnd(i, Some(MxLine(aliasIndexPair.name, preference, ttl, authoritative))));
      case NS =>
        var aliasIndexPair :- ParsePointerOrName(buf, i, qName, depth);
        i := aliasIndexPair.next;
        r := Done(RecordEnd(i, Some(NsLine(aliasIndexPair.name, ttl, authoritative))));
    }
  }

  /** The statements of `parseAnswer` from the TTL on. */
  method ParseRecordTail(buf: Bytes, start: int, qType: Option<QueryType>, qName: Bytes,
                         authoritative: bool, depth: nat)
    returns (r: Outcome<RecordEnd>)
    ensures r == RecordTail(buf, start, qType, qName, authoritative, depth)
  {
    var i := start;
    var t0 :- Read(buf, i);
    i := i + 1;
    var t1 :- Read(buf, i);
    i := i + 1;
    var t2 :- Read(buf, i);
    i := i + 1;
    var t3 :- Read(buf, i);
    var ttl := Ttl(t0, t1, t2, t3);
    i := i + 1;
    var r0 :- Read(buf, i);
    i := i + 1;
    var r1 :- Read(buf, i);
    var rdLength := SignedWord(r0, r1);
    if rdLength == 0 {
      return Done(RecordEnd(i, None));
    }
    i := i + 1;
    match qType {
      case None =>
        i := i + rdLength;
        r := Done(RecordEnd(i, None));
      case Some(t) =>
        r := ParseRecordData(buf, i, rdLength, t, ttl, qName, authoritative, depth);
    }
  }

  /** `parseAnswer`: the record's fields in order, printing the CLASS warning as soon as
      CLASS is read and the record's line once its RDATA is decoded. */
  method ParseAnswer(buf: Bytes, start: int, qName: Bytes, authoritative: bool,
                     isAuthoritySection: bool, depth: nat)
    returns (next: Outcome<int>, lines: seq<Line>)
    ensures Emitted(lines, next) == Answer(buf, start, qName, authoritative, isAuthoritySection, depth)
  {
    lines := [];
    var head :- ParseRecordHead(buf, start, isAuthoritySection, depth);
    if !head.classIsOne {
      lines := lines + [ClassNotOne];
    }
    var tail :- ParseRecordTail(buf, head.ttlAt, head.qType, qName, authoritative, depth);
    lines := lines + LineSeq(tail.line);
    next := Done(tail.next);
  }

  // ---------------------------------------------------------------- whole response

  /** `n` records parsed one after the other from `i`, each starting where the previous
      one's `parseAnswer` left the cursor; the first exception ends the run. */
  function Records(buf: Bytes, i: int, n: nat, qName: Bytes, auth: bool, authority: bool, depth: nat): Emitted<int>
    decreases n, 2
  {
    if n == 0 then Emitted([], Done(i)) else RecordsAfter(buf, i, n, qName, auth, authority, depth)
  }

  /** A non-empty run. It is a step of its own, apart from `FirstThenRest`, so that a proof
      about the loop that unfolds `Records` twice stops short of the body of `Answer`. */
  function RecordsAfter(buf: Bytes, i: int, n: nat, qName: Bytes, auth: bool, authority: bool, depth: nat): Emitted<int>
    requires n > 0
    decreases n, 1
  {
    FirstThenRest(buf, i, n, qName, auth, authority, depth)
  }

  /** The record at `i`, then, unless it threw, the other `n - 1` from where it ended. */
  function FirstThenRest(buf: Bytes, i: int, n: nat, qName: Bytes, auth: bool, authority: bool, depth: nat): Emitted<int>
    requires n > 0
    decreases n, 0
  {
    var first := Answer(buf, i, qName, auth, authority, depth);
    match first.outcome
    case Threw(_) => first
    case Done(j) => Prefix(first.lines, Records(buf, j, n - 1, qName, auth, authority, depth))
  }

  /** `for (int j = 0; j < count; j++)`: a negative count runs no iteration. */
  function Iterations(count: int): nat
  {
    if count > 0 then count else 0
  }

  /** One section: its banner when the count is positive, then its records. */
  function SectionRun(buf: Bytes, i: int, count: int, section: Section, qName: Bytes,
                      auth: bool, depth: nat): Emitted<int>
  {
    Prefix(if count > 0 then [Banner(section, count)] else [],
           Records(buf, i, Iterations(count), qName, auth, section == AuthoritySection, depth))
  }

  /** The three sections in order: answer, authority, additional. */
  function Sections(buf: Bytes, i: int, qName: Bytes, depth: nat): Emitted<int>
    requires |buf| >= HeaderLength
  {
    var auth := Authoritative(buf);
    var answers := SectionRun(buf, i, AnCount(buf), AnswerSection, qName, auth, depth);
    match answers.outcome
    case Threw(_) => answers
    case Done(j) =>
      var authorities := SectionRun(buf, j, NsCount(buf), AuthoritySection, qName, auth, depth);
      match authorities.outcome
      case Threw(_) => Prefix(answers.lines, authorities)
      case Done(k) =>
        Prefix(answers.lines + authorities.lines,
               SectionRun(buf, k, ArCount(buf), AdditionalSection, qName, auth, depth))
  }

  /** `parseDNSResponse(response)`: everything it prints, and whether it returned or threw.
      The header is read and reported first; RCODE never stops the decoding. The question
      name is read at offset 12 and its QTYPE and QCLASS skipped. */
  function Response(buf: Bytes, depth: nat): Emitted<()>
  {
    if |buf| < HeaderLength then Emitted([], Threw(ArrayIndexOutOfBounds))
    else
      match ReadName(buf, HeaderLength, depth)
      case Threw(e) => Emitted(HeaderLines(buf), Threw(e))
      case Done(question) =>
        var body := Sections(buf, question.next + 4, question.name, depth);
        Emitted(HeaderLines(buf) + body.lines,
                match body.outcome
                case Threw(e) => Threw(e)
                case Done(_) => Done(()))
  }

  /** One more record: `Records` is the first record's output followed by the rest. */
  lemma RecordsStep(buf: Bytes, i: int, k: nat, qName: Bytes, auth: bool, authority: bool,
                    depth: nat, first: Emitted<int>)
    requires k > 0 && first == Answer(buf, i, qName, auth, authority, depth)
    ensures first.outcome.Threw? ==> Records(buf, i, k, qName, auth, authority, depth) == first
    ensures first.outcome.Done? ==> Records(buf, i, k, qName, auth, authority, depth)
                                    == Prefix(first.lines, Records(buf, first.outcome.value, k - 1, qName, auth, authority, depth))
  {
    assert Records(buf, i, k, qName, auth, authority, depth) == FirstThenRest(buf, i, k, qName, auth, authority, depth);
  }

  /** Printing `a` and then the run `whole`, which begins with `b`, is printing `a + b`
      and then the rest of that run. */
  lemma PrefixStep<T>(a: seq<Line>, b: seq<Line>, whole: Emitted<T>, rest: Emitted<T>)
    requires whole == Prefix(b, rest)
    ensures Prefix(a, whole) == Prefix(a + b, rest)
  {
    assert a + (b + rest.lines) == (a + b) + rest.lines;
  }

  /** One iteration of the counted loop: `parseAnswer` at `i`, stated as the first step of
      `Records`. */
  method ParseRecordStep(buf: Bytes, i: int, ghost k: nat, qName: Bytes, authoritative: bool,
                         isAuthoritySection: bool, depth: nat)
    returns (next: Outcome<int>, lines: seq<Line>)
    requires k > 0
    ensures next.Threw? ==> Records(buf, i, k, qName, authoritative, isAuthoritySection, depth) == Emitted(lines, next)
    ensures next.Done? ==> Records(buf, i, k, qName, authoritative, isAuthoritySection, depth)
                           == Prefix(lines, Records(buf, next.value, k - 1, qName, authoritative, isAuthoritySection, depth))
  {
    next, lines := ParseAnswer(buf, i, qName, authoritative, isAuthoritySection, depth);
    RecordsStep(buf, i, k, qName, authoritative, isAuthoritySection, depth, Emitted(lines, next));
  }

  /** The counted loop `for (j = 0; j < count; j++) i = parseAnswer(...)` the source writes
      out once per section. */
  method ParseRecords(buf: Bytes, start: int, count: int, qName: Bytes, authoritative: bool,
                      isAuthoritySection: bool, depth: nat)
    returns (next: Outcome<int>, lines: seq<Line>)
    ensures Emitted(lines, next) == Records(buf, start, Iterations(count), qName, authoritative, isAuthoritySection, depth)
  {
    ghost var n := Iterations(count);
    ghost var goal := Records(buf, start, n, qName, authoritative, isAuthoritySection, depth);
    lines := [];
    var i := start;
    var j := 0;
    while j < count
      invariant 0 <= j <= n
      invariant Prefix(lines, Records(buf, i, n - j, qName, authoritative, isAuthoritySection, depth)) == goal
    {
      var step, emitted := ParseRecordStep(buf, i, n - j, qName, authoritative, isAuthoritySection, depth);
      if step.Threw? {
        return Threw(step.exception), lines + emitted;
      }
      PrefixStep(lines, emitted, Records(buf, i, n - j, qName, authoritative, isAuthoritySection, depth),
                 Records(buf, step.value, n - j - 1, qName, authoritative, isAuthoritySection, depth));
      lines := lines + emitted;
      i := step.value;
      j := j + 1;
    }
    next := Done(i);
  }

  /** One section as the source writes it out: the banner when the count is positive, then
      the counted loop. */
  method ParseSection(buf: Bytes, start: int, count: int, section: Section, qName: Bytes,
                      authoritative: bool, depth: nat)
    returns (next: Outcome<int>, lines: seq<Line>)
    ensures Emitted(lines, next) == SectionRun(buf, start, count, section, qName, authoritative, depth)
  {
    lines := [];
    if count > 0 {
      lines := lines + [Banner(section, count)];
    }
    var emitted;
    next, emitted := ParseRecords(buf, start, count, qName, authoritative, section == AuthoritySection, depth);
    lines := lines + emitted;
  }

  /** The three sections of `parseDNSResponse`, from the end of the question on. */
  method ParseSections(response: Bytes, start: int, questionName: Bytes, authoritative: bool,
                       anCount: int, nsCount: int, arCount: int, depth: nat)
    returns (next: Outcome<int>, lines: seq<Line>)
    requires |response| >= HeaderLength && authoritative == Authoritative(response)
    requires anCount == AnCount(response) && nsCount == NsCount(response) && arCount == ArCount(response)
    ensures Emitted(lines, next) == Sections(response, start, questionName, depth)
  {
    var i := start;
    var emitted;
    next, lines := ParseSection(response, i, anCount, AnswerSection, questionName, authoritative, depth);
    if next.Threw? {
      return;
    }
    i := next.value;
    next, emitted := ParseSection(response, i, nsCount, AuthoritySection, questionName, authoritative, depth);
    lines := lines + emitted;
    if next.Threw? {
      return;
    }
    i := next.value;
    next, emitted := ParseSection(response, i, arCount, AdditionalSection, questionName, authoritative, depth);
    lines := lines + emitted;
  }

  /** `parseDNSResponse`, as the source runs it. */
  method ParseDNSResponse(response: Bytes, depth: nat) returns (status: Outcome<()>, lines: seq<Line>)
    ensures Emitted(lines, status) == Response(response, depth)
  {
    lines := [];
    var b2 :- Read(response, 2);
    var b3 :- Read(response, 3);
    var b6 :- Read(response, 6);
    var b7 :- Read(response, 7);
    var b8 :- Read(response, 8);
    var b9 :- Read(response, 9);
    var b10 :- Read(response, 10);
    var b11 :- Read(response, 11);
    var aa := U8(b2) / 4 % 2;
    var ra := U8(b3) / 128;
    var rcode := U8(b3) % 16;
    var anCount := SignedWord(b6, b7);
    var nsCount := SignedWord(b8, b9);
    var arCount := SignedWord(b10, b11);
    var authoritative := aa != 0;
    var recursionSupported := ra != 0;
    if !recursionSupported {
      lines := lines + [RecursionUnsupported];
    }
    lines := lines + RcodeLines(rcode, authoritative);
    assert lines == HeaderLines(response);
    var i := HeaderLength;
    var nameIndexPair := ParseName(response, i, depth);
    if nameIndexPair.Threw? {
      return Threw(nameIndexPair.exception), lines;
    }
    var questionName := nameIndexPair.value.name;
    i := nameIndexPair.value.next;
    i := i + 4;
    var step, emitted := ParseSections(response, i, questionName, authoritative, anCount, nsCount, arCount, depth);
    lines := lines + emitted;
    if step.Threw? {
      return Threw(step.exception), lines;
    }
    status := Done(());
  }
}
