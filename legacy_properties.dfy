/** Properties of main.java's `parseDNSResponse`, alone and beside the decoder of
    DnsClient.java: where the two read the same bytes they agree, and where the older one
    stops early it ignores whatever follows. */
module LegacyProperties {
  import opened JavaBytes
  import opened QueryTypes
  import opened Encoder
  import opened NameReader
  import opened Decoder
  import opened LegacyClient
  import opened RoundTrip

  /** A length byte of 0x80 or more at the start of the question (a compression pointer
      among them) is a negative label length: `Arrays.copyOfRange` throws, right after the
      RCODE line. */
  lemma HighQuestionByteThrows(buf: Bytes)
    requires HeaderLength < |buf| && buf[HeaderLength] < 0
    ensures LegacyResponse(buf) == Emitted(RcodeLines(Rcode(buf), Authoritative(buf)), Threw(IllegalArgument))
  {
    assert QuestionLabels(buf, HeaderLength, []) == QuestionLabel(buf, HeaderLength, buf[HeaderLength], []);
  }

  /** Both decoders read a question written out as labels the same way: the same dotted
      name, and the older one's answer offset (the zero byte plus 5) is the newer one's
      (the cursor past the zero byte plus the 4 bytes of QTYPE and QCLASS). */
  lemma ReadersAgreeOnQuestion(buf: Bytes, labels: seq<Bytes>, depth: nat)
    requires EncodedAt(buf, HeaderLength, labels)
    requires HeaderLength + WireLength(labels) < |buf| && buf[HeaderLength + WireLength(labels)] == 0
    ensures QuestionLabels(buf, HeaderLength, []).Done? && ReadName(buf, HeaderLength, depth).Done?
    ensures var run := QuestionLabels(buf, HeaderLength, []).value;
      var question := ReadName(buf, HeaderLength, depth).value;
      Join(run.labels) == question.name && run.at + 5 == question.next + 4
  {
    ReadEncodedQuestion(buf, HeaderLength, labels);
    ReadEncodedName(buf, HeaderLength, labels, depth);
  }

  /** The answer's owner is cut out of the question name exactly as `parsePointerOrName`
      cuts it (same offset arithmetic, low byte read signed, same exception); any other
      owner is not read, and TYPE is taken two bytes on. */
  lemma OwnerMatchesPointerOrName(buf: Bytes, p: int, qName: Bytes, depth: nat)
    requires 0 <= p && p + 1 < |buf|
    ensures IsPointer(buf[p]) ==>
      match PointerOrName(buf, p, qName, depth)
      case Done(n) => AnswerOwner(buf, p, qName) == Done(Owner(Some(n.name), n.next + 2))
      case Threw(e) => AnswerOwner(buf, p, qName) == Threw(e) && e == StringIndexOutOfBounds
    ensures !IsPointer(buf[p]) ==> AnswerOwner(buf, p, qName) == Done(Owner(None, p + 2))
  {
  }

  /** A TYPE byte that is no known code makes `QueryType.valueOf(...).get()` throw. */
  lemma UnknownTypeThrows(buf: Bytes, p: int, qName: Bytes, owner: Owner)
    requires AnswerOwner(buf, p, qName) == Done(owner)
    requires 0 <= owner.typeAt < |buf| && buf[owner.typeAt] !in {1, 2, 5, 15}
    ensures AnswerFields(buf, p, qName) == Threw(NoSuchElement)
  {
  }

  /** An A record whose owner is a pointer, laid out as in DnsClient.java's reading: TYPE's
      low byte at 3, CLASS at 4, TTL at 6, RDLENGTH at 10 and the address from 12. The
      address is the RDATA read as unsigned octets, padded with zeros past the end of the
      buffer; a negative RDLENGTH makes `Arrays.copyOfRange` throw. */
  lemma PointerAddressRecord(buf: Bytes, p: int, qName: Bytes, owner: Owner)
    requires 0 <= p && p + 11 < |buf| && IsPointer(buf[p])
    requires AnswerOwner(buf, p, qName) == Done(owner)
    requires buf[p + 3] == 1 && SignedWord(buf[p + 4], buf[p + 5]) == 1
    ensures var rdLength := SignedWord(buf[p + 10], buf[p + 11]);
      var ttl := SignedTtl(buf[p + 6], buf[p + 7], buf[p + 8], buf[p + 9]);
      (rdLength >= 0 ==>
         AnswerFields(buf, p, qName) ==
         Done(Decoded(owner.name, A, ttl, rdLength, Some(Octets(CopyOfRange(buf, p + 12, p + 12 + rdLength).value))))) &&
      (rdLength < 0 ==> AnswerFields(buf, p, qName) == Threw(IllegalArgument))
  {
    assert owner.typeAt == p + 3;
    assert ValueOf(1) == Some(A);
    assert AnswerFields(buf, p, qName) == RecordValues(buf, p + 6, owner.name, A);
    AddressValues(buf, p + 6, owner.name);
  }

  /** The fields after CLASS of an A record. */
  lemma AddressValues(buf: Bytes, at: int, owner: Option<Bytes>)
    requires 0 <= at && at + 5 < |buf|
    ensures var rdLength := SignedWord(buf[at + 4], buf[at + 5]);
      var ttl := SignedTtl(buf[at], buf[at + 1], buf[at + 2], buf[at + 3]);
      (rdLength >= 0 ==>
         RecordValues(buf, at, owner, A) ==
         Done(Decoded(owner, A, ttl, rdLength, Some(Octets(CopyOfRange(buf, at + 6, at + 6 + rdLength).value))))) &&
      (rdLength < 0 ==> RecordValues(buf, at, owner, A) == Threw(IllegalArgument))
  {
  }

  /** The older decoder wraps the TTL into a signed 32-bit `int` where the newer one masks
      it to an unsigned value: the two agree below 2^31 and differ by 2^32 above. */
  lemma SignedTtlOfTtl(b0: JByte, b1: JByte, b2: JByte, b3: JByte)
    ensures var t := Ttl(b0, b1, b2, b3);
      SignedTtl(b0, b1, b2, b3) == if t < 0x8000_0000 then t else t - 0x1_0000_0000
  {
    var x := b0 * 0x100_0000 + b1 * 0x1_0000 + b2 * 0x100 + b3;
    var r := SignedTtl(b0, b1, b2, b3);
    var t := Ttl(b0, b1, b2, b3);
    assert r % 0x1_0000_0000 == t;
    var q := r / 0x1_0000_0000;
    assert r == 0x1_0000_0000 * q + t;
    assert q == 0 || q == -1;
  }

  /** The header values and the question are read from the bytes before the answer: a
      buffer that agrees with `buf` up to any point past the question's zero byte has the
      same RCODE and AA bit, and its question loop gives the same labels and zero byte. */
  lemma QuestionFromPrefix(buf: Bytes, other: Bytes, run: LabelRun, k: int)
    requires QuestionLabels(buf, HeaderLength, []) == Done(run)
    requires HeaderLength <= k <= |buf| && run.at < k <= |other| && other[..k] == buf[..k]
    ensures HeaderLength <= |other| && Rcode(other) == Rcode(buf) && Authoritative(other) == Authoritative(buf)
    ensures QuestionLabels(other, HeaderLength, []) == Done(run)
  {
    QuestionRunAhead(buf, HeaderLength, [], run);
    QuestionLocal(buf, other, HeaderLength, [], run, k);
    HeaderLocal(buf, other, k);
  }

  /** Nothing from TTL on is read once CLASS is not 1: in any buffer that agrees with `buf`
      up to CLASS, the answer is rejected the same way. */
  lemma ClassNotOneStops(buf: Bytes, other: Bytes, p: int, qName: Bytes, owner: Owner)
    requires AnswerOwner(buf, p, qName) == Done(owner)
    requires 0 <= owner.typeAt && owner.typeAt + 2 < |buf| && buf[owner.typeAt] in {1, 2, 5, 15}
    requires SignedWord(buf[owner.typeAt + 1], buf[owner.typeAt + 2]) != 1
    requires owner.typeAt + 3 <= |other| && other[..owner.typeAt + 3] == buf[..owner.typeAt + 3]
    ensures AnswerFields(other, p, qName) == Done(ClassRejected)
  {
    var k := owner.typeAt + 3;
    OwnerLocal(buf, other, p, qName, owner, k);
    Agree(buf, other, k, owner.typeAt);
    Agree(buf, other, k, owner.typeAt + 1);
    Agree(buf, other, k, owner.typeAt + 2);
    ClassRejectedFields(other, p, qName, owner);
  }

  /** A known TYPE followed by a CLASS other than 1 ends the decoding of the answer, so
      `parseDNSResponse` prints the warning and returns. */
  lemma ClassRejectedFields(buf: Bytes, p: int, qName: Bytes, owner: Owner)
    requires AnswerOwner(buf, p, qName) == Done(owner)
    requires 0 <= owner.typeAt && owner.typeAt + 2 < |buf| && buf[owner.typeAt] in {1, 2, 5, 15}
    requires SignedWord(buf[owner.typeAt + 1], buf[owner.typeAt + 2]) != 1
    ensures AnswerFields(buf, p, qName) == Done(ClassRejected)
  {
  }

  /** Two buffers that agree on their first `k` bytes agree at every index below `k`. */
  lemma Agree(buf: Bytes, other: Bytes, k: int, i: int)
    requires 0 <= i < k <= |buf| && k <= |other| && other[..k] == buf[..k]
    ensures other[i] == buf[i]
  {
    assert other[i] == other[..k][i];
  }

  /** The question loop stops at or after where it starts. */
  lemma {:induction false} QuestionRunAhead(buf: Bytes, i: int, acc: seq<Bytes>, run: LabelRun)
    requires QuestionLabels(buf, i, acc) == Done(run)
    ensures i <= run.at < |buf| && buf[run.at] == 0
    decreases Remaining(buf, i)
  {
    assert 0 <= i < |buf|;
    if buf[i] != 0 {
      var b := buf[i];
      assert QuestionLabels(buf, i, acc) == QuestionLabel(buf, i, b, acc);
      var part := CopyOfRange(buf, i + 1, i + 1 + b).value;
      QuestionRunAhead(buf, i + 1 + b, acc + [part], run);
    }
  }

  /** The question loop reads no byte at or past its zero byte's successor: a buffer that
      agrees up to `k`, past that zero byte, gives the same run. */
  lemma {:induction false} QuestionLocal(buf: Bytes, other: Bytes, i: int, acc: seq<Bytes>, run: LabelRun, k: int)
    requires QuestionLabels(buf, i, acc) == Done(run)
    requires 0 <= run.at < k <= |buf| && k <= |other| && other[..k] == buf[..k]
    ensures QuestionLabels(other, i, acc) == Done(run)
    decreases Remaining(buf, i)
  {
    QuestionRunAhead(buf, i, acc, run);
    Agree(buf, other, k, i);
    if buf[i] != 0 {
      var b := buf[i];
      assert QuestionLabels(buf, i, acc) == QuestionLabel(buf, i, b, acc);
      assert QuestionLabels(other, i, acc) == QuestionLabel(other, i, b, acc);
      var part := CopyOfRange(buf, i + 1, i + 1 + b).value;
      QuestionRunAhead(buf, i + 1 + b, acc + [part], run);
      CopyInside(buf, i + 1, i + 1 + b);
      CopyInside(other, i + 1, i + 1 + b);
      SamePrefixSlice(buf, other, k, i + 1, i + 1 + b);
      QuestionLocal(buf, other, i + 1 + b, acc + [part], run, k);
    }
  }

  /** Slices below the common prefix are equal. */
  lemma SamePrefixSlice(buf: Bytes, other: Bytes, k: int, from: int, to: int)
    requires 0 <= from <= to <= k <= |buf| && k <= |other| && other[..k] == buf[..k]
    ensures other[from..to] == buf[from..to]
  {
    assert other[from..to] == other[..k][from..to];
    assert buf[from..to] == buf[..k][from..to];
  }

  /** Reading the owner uses no byte from TYPE's position on. */
  lemma OwnerLocal(buf: Bytes, other: Bytes, p: int, qName: Bytes, owner: Owner, k: int)
    requires AnswerOwner(buf, p, qName) == Done(owner)
    requires owner.typeAt < k <= |buf| && k <= |other| && other[..k] == buf[..k]
    ensures AnswerOwner(other, p, qName) == Done(owner)
  {
    Agree(buf, other, k, p);
    if IsPointer(buf[p]) {
      Agree(buf, other, k, p + 1);
    }
  }

  /** The RCODE line depends on the header bytes only. */
  lemma HeaderLocal(buf: Bytes, other: Bytes, k: int)
    requires HeaderLength <= k <= |buf| && k <= |other| && other[..k] == buf[..k]
    ensures Rcode(other) == Rcode(buf) && Authoritative(other) == Authoritative(buf)
  {
    Agree(buf, other, k, 2);
    Agree(buf, other, k, 3);
  }
}
