/** The older decoder of main.java, `parseDNSResponse`: it reports RCODE (there is no line
    about recursion), reads the question name as plain labels (no compression pointers),
    then decodes the fields of exactly one answer record, whatever ANCOUNT says. Apart from
    the CLASS warning, nothing it decodes is printed: the owner name, TYPE, TTL, RDLENGTH and
    the A address are computed and dropped, so the model returns them as the outcome.

    Its `composeDNSQuery` is the same code as the one in DnsClient.java and is modelled by
    `Encoder.ComposeQuery`; its `QueryType` is `QueryTypes`. */
module LegacyClient {
  import opened JavaBytes
  import opened QueryTypes
  import opened Encoder
  import opened NameReader
  import opened Decoder

  /** The `while (response[i] != 0x0)` loop over the question name from cursor `i`, having
      collected `labels`. Every non-zero byte is a label length, read signed. */
  function QuestionLabels(buf: Bytes, i: int, labels: seq<Bytes>): Outcome<LabelRun>
    decreases Remaining(buf, i), 1
  {
    var b :- Read(buf, i);
    if b == 0 then Done(LabelRun(labels, i))
    else QuestionLabel(buf, i, b, labels)
  }

  /** The length byte `b` at `i` adds the `b` bytes after it as a label: a byte of 0x80 or
      more (a compression pointer among them) is a negative length, and `Arrays.copyOfRange`
      throws. */
  function QuestionLabel(buf: Bytes, i: int, b: JByte, labels: seq<Bytes>): Outcome<LabelRun>
    requires 0 <= i < |buf| && buf[i] == b && b != 0
    decreases Remaining(buf, i), 0
  {
    var part :- CopyOfRange(buf, i + 1, i + 1 + b);
    QuestionLabels(buf, i + 1 + b, labels + [part])
  }

  /** The answer's owner name, if it is a pointer (then cut out of the question name at
      `pointer - 12`), and the cursor at the byte read as TYPE: two past the pointer's
      second byte, or two past the record start for any other owner. */
  datatype Owner = Owner(name: Option<Bytes>, typeAt: int)

  function AnswerOwner(buf: Bytes, p: int, qName: Bytes): Outcome<Owner>
  {
    var b :- Read(buf, p);
    if IsPointer(b) then
      var lo :- Read(buf, p + 1);
      var startIndex := SignedPointerOffset(b, lo) - HeaderLength;
      if 0 <= startIndex <= |qName| then Done(Owner(Some(qName[startIndex..]), p + 3))
      else Threw(StringIndexOutOfBounds)
    else Done(Owner(None, p + 2))
  }

  /** What the single answer decodes to: nothing more once CLASS is not 1, else the values
      the source computes (the A address only for type A). */
  datatype LegacyAnswer =
    | ClassRejected
    | Decoded(owner: Option<Bytes>, qType: QueryType, ttl: int, rdLength: int, address: Option<seq<int>>)

  /** `(response[i] << 24) + (response[++i] << 16) + (response[++i] << 8) + response[++i]`:
      signed bytes summed in 32-bit `int` arithmetic, with no mask. */
  function SignedTtl(b0: JByte, b1: JByte, b2: JByte, b3: JByte): (ttl: int)
    ensures -0x8000_0000 <= ttl < 0x8000_0000
  {
    ToInt32(b0 * 0x100_0000 + b1 * 0x1_0000 + b2 * 0x100 + b3)
  }

  /** The fields after CLASS: TTL, RDLENGTH and, for type A, the address. */
  function RecordValues(buf: Bytes, ttlAt: int, owner: Option<Bytes>, qType: QueryType): Outcome<LegacyAnswer>
  {
    var t0 :- Read(buf, ttlAt);
    var t1 :- Read(buf, ttlAt + 1);
    var t2 :- Read(buf, ttlAt + 2);
    var t3 :- Read(buf, ttlAt + 3);
    var r0 :- Read(buf, ttlAt + 4);
    var r1 :- Read(buf, ttlAt + 5);
    var rdLength := SignedWord(r0, r1);
    if qType == A then
      var ipBytes :- CopyOfRange(buf, ttlAt + 6, ttlAt + 6 + rdLength);
      Done(Decoded(owner, qType, SignedTtl(t0, t1, t2, t3), rdLength, Some(Octets(ipBytes))))
    else Done(Decoded(owner, qType, SignedTtl(t0, t1, t2, t3), rdLength, None))
  }

  /** The answer record at `p`: owner, TYPE (which must be a known code, or `.get()`
      throws), CLASS, and the rest when CLASS is 1. */
  function AnswerFields(buf: Bytes, p: int, qName: Bytes): Outcome<LegacyAnswer>
  {
    var owner :- AnswerOwner(buf, p, qName);
    var t :- Read(buf, owner.typeAt);
    var qType :- Get(ValueOf(t));
    var c0 :- Read(buf, owner.typeAt + 1);
    var c1 :- Read(buf, owner.typeAt + 2);
    if SignedWord(c0, c1) != 1 then Done(ClassRejected)
    else RecordValues(buf, owner.typeAt + 3, owner.name, qType)
  }

  /** The question name and the decoded answer. */
  datatype Decoding = Decoding(questionName: Bytes, answer: LegacyAnswer)

  /** `parseDNSResponse(response)` of main.java: the RCODE line, then the question name read
      from offset 12, then the answer starting 5 bytes past the name's zero byte, whose
      rejected CLASS is the only other line printed. */
  function LegacyResponse(buf: Bytes): Emitted<Decoding>
  {
    if |buf| < HeaderLength then Emitted([], Threw(ArrayIndexOutOfBounds))
    else
      var lines := RcodeLines(Rcode(buf), Authoritative(buf));
      match QuestionLabels(buf, HeaderLength, [])
      case Threw(e) => Emitted(lines, Threw(e))
      case Done(run) =>
        var qName := Join(run.labels);
        match AnswerFields(buf, run.at + 5, qName)
        case Threw(e) => Emitted(lines, Threw(e))
        case Done(answer) =>
          Emitted(lines + (if answer.ClassRejected? then [ClassNotOne] else []),
                  Done(Decoding(qName, answer)))
  }

  /** The statements of `parseDNSResponse` from the TTL on. */
  method ParseRecordValues(response: Bytes, start: int, owner: Option<Bytes>, qType: QueryType)
    returns (r: Outcome<LegacyAnswer>)
    ensures r == RecordValues(response, start, owner, qType)
  {
    var i := start;
    var t0 :- Read(response, i);
    i := i + 1;
    var t1 :- Read(response, i);
    i := i + 1;
    var t2 :- Read(response, i);
    i := i + 1;
    var t3 :- Read(response, i);
    var ttl := SignedTtl(t0, t1, t2, t3);
    i := i + 1;
    var r0 :- Read(response, i);
    i := i + 1;
    var r1 :- Read(response, i);
    var rdLength := SignedWord(r0, r1);
    i := i + 1;
    var address: Option<seq<int>> := None;
    if qType == A {
      var ipBytes :- CopyOfRange(response, i, i + rdLength);
      var ipParts := UnsignedOctets(ipBytes);
      address := Some(ipParts);
    }
    r := Done(Decoded(owner, qType, ttl, rdLength, address));
  }

  /** The statements of `parseDNSResponse` from the answer's owner to its CLASS check. */
  method ParseAnswer(response: Bytes, start: int, questionName: Bytes) returns (r: Outcome<LegacyAnswer>)
    ensures r == AnswerFields(response, start, questionName)
  {
    var i := start;
    var name: Option<Bytes> := None;
    var b :- Read(response, i);
    var isPointer := IsPointer(b);
    if isPointer {
      i := i + 1;
      var lo :- Read(response, i);
      var pointer := SignedPointerOffset(b, lo);
      var startIndex := pointer - HeaderLength;
      if !(0 <= startIndex <= |questionName|) {
        return Threw(StringIndexOutOfBounds);
      }
      name := Some(questionName[startIndex..]);
    }
    i := i + 2;
    var t :- Read(response, i);
    var qType :- Get(ValueOf(t));
    i := i + 1;
    var c0 :- Read(response, i);
    i := i + 1;
    var c1 :- Read(response, i);
    var qClass := SignedWord(c0, c1);
    if qClass != 1 {
      return Done(ClassRejected);
    }
    i := i + 1;
    r := ParseRecordValues(response, i, name, qType);
  }

  /** The question loop of `parseDNSResponse`: labels from offset 12 up to the zero byte,
      whose index it returns. */
  method ParseQuestion(response: Bytes) returns (r: Outcome<LabelRun>)
    ensures r == QuestionLabels(response, HeaderLength, [])
  {
    var i := HeaderLength;
    var labels: seq<Bytes> := [];
    while true
      invariant QuestionLabels(response, i, labels) == QuestionLabels(response, HeaderLength, [])
      decreases Remaining(response, i)
    {
      var b :- Read(response, i);
      if b == 0 {
        break;
      }
      var labelLength := b;
      i := i + 1;
      var byteArray :- CopyOfRange(response, i, i + labelLength);
      labels := labels + [byteArray];
      i := i + labelLength;
    }
    r := Done(LabelRun(labels, i));
  }

  /** The header reads of `parseDNSResponse` (offsets 2, 3, 6, 7, 10 and 11, of which only
      AA and RCODE are used) and the RCODE line they lead to. */
  method ParseHeader(response: Bytes) returns (r: Outcome<seq<Line>>)
    ensures r == if |response| < HeaderLength then Threw(ArrayIndexOutOfBounds)
                 else Done(RcodeLines(Rcode(response), Authoritative(response)))
  {
    var b2 :- Read(response, 2);
    var b3 :- Read(response, 3);
    var b6 :- Read(response, 6);
    var b7 :- Read(response, 7);
    var b10 :- Read(response, 10);
    var b11 :- Read(response, 11);
    var aa := U8(b2) / 4 % 2;
    var rcode := U8(b3) % 16;
    var authoritative := aa != 0;
    r := Done(RcodeLines(rcode, authoritative));
  }

  /** `parseDNSResponse` of main.java, as the source runs it. */
  method ParseDNSResponse(response: Bytes) returns (status: Outcome<Decoding>, lines: seq<Line>)
    ensures Emitted(lines, status) == LegacyResponse(response)
  {
    lines := [];
    var header := ParseHeader(response);
    if header.Threw? {
      return Threw(header.exception), lines;
    }
    lines := lines + header.value;
    var run := ParseQuestion(response);
    if run.Threw? {
      return Threw(run.exception), lines;
    }
    var questionName := Join(run.value.labels);
    var i := run.value.at + 5;
    var answer := ParseAnswer(response, i, questionName);
    if answer.Threw? {
      return Threw(answer.exception), lines;
    }
    if answer.value.ClassRejected? {
      lines := lines + [ClassNotOne];
    }
    status := Done(Decoding(questionName, answer.value));
  }
}
