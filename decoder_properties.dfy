/** What `parseDNSResponse`, `parseAnswer` and `parsePointerOrName` of DnsClient.java do
    with a response, stated over the functions of `Decoder`: where the cursor ends up after a
    record, which lines are printed, how compressed names are read, and how the unmasked
    reads differ from the unsigned values RFC 1035 means. */
module DecoderProperties {
  import opened JavaBytes
  import opened QueryTypes
  import opened Encoder
  import opened NameReader
  import opened Decoder
  import opened RoundTrip

  // ---------------------------------------------------------------- field values

  /** The masked TTL is the unsigned big-endian value of its four bytes exactly when none of
      the last three is 0x80 or more: a negative byte there borrows from the bytes above it,
      while the sign of the first byte is cut off by the mask. */
  lemma TtlUnsignedIff(b0: JByte, b1: JByte, b2: JByte, b3: JByte)
    ensures Ttl(b0, b1, b2, b3) == UnsignedBE(b0, b1, b2, b3) <==> b1 >= 0 && b2 >= 0 && b3 >= 0
  {
    var borrow := (if b1 < 0 then 0x100_0000 else 0) + (if b2 < 0 then 0x1_0000 else 0) + (if b3 < 0 then 0x100 else 0);
    var top := if b0 < 0 then 0x1_0000_0000 else 0;
    assert b0 * 0x100_0000 + b1 * 0x1_0000 + b2 * 0x100 + b3 == UnsignedBE(b0, b1, b2, b3) - borrow - top;
    WrapBorrow(UnsignedBE(b0, b1, b2, b3), borrow, top);
  }

  /** Taken modulo 2^32, a 32-bit value less a borrow below 2^32 (and less 2^32 itself, or
      not) is the value again only when nothing was borrowed. */
  lemma WrapBorrow(u: int, borrow: int, top: int)
    requires 0 <= u < 0x1_0000_0000 && 0 <= borrow < 0x1_0000_0000
    requires top == 0 || top == 0x1_0000_0000
    ensures (u - borrow - top) % 0x1_0000_0000 == u <==> borrow == 0
  {
    var x := u - borrow;
    assert -0x1_0000_0000 < x < 0x1_0000_0000;
    if x >= 0 {
      assert (x - top) % 0x1_0000_0000 == x;
    } else {
      assert (x - top) % 0x1_0000_0000 == x + 0x1_0000_0000;
    }
  }

  /** A count whose high byte is 0x80 or more is negative: its section prints no banner and
      no record, and the cursor does not move. */
  lemma NegativeCountSkipsSection(buf: Bytes, i: int, hi: JByte, lo: JByte, section: Section,
                                  qName: Bytes, auth: bool, depth: nat)
    requires hi < 0
    ensures SectionRun(buf, i, SignedWord(hi, lo), section, qName, auth, depth) == Emitted([], Done(i))
  {
  }

  // ---------------------------------------------------------------- sections

  /** The authority section is skipped, not printed: whatever its records hold, a run of
      them prints no line (CLASS is not read there, so there is no CLASS warning either). */
  lemma {:induction false} AuthorityRecordsSilent(buf: Bytes, i: int, n: nat, qName: Bytes, auth: bool, depth: nat)
    ensures Records(buf, i, n, qName, auth, true, depth).lines == []
    decreases n
  {
    if n > 0 {
      var first := Answer(buf, i, qName, auth, true, depth);
      RecordsStep(buf, i, n, qName, auth, true, depth, first);
      assert first.lines == [];
      if first.outcome.Done? {
        AuthorityRecordsSilent(buf, first.outcome.value, n - 1, qName, auth, depth);
      }
    }
  }

  // ---------------------------------------------------------------- one record

  /** The CLASS warning of a record at `p` whose owner is a pointer: printed when CLASS
      (bytes p+4 and p+5, read signed) is not 1, and never in the authority section. */
  function PointerOwnerWarning(buf: Bytes, p: int, authority: bool): seq<Line>
    requires 0 <= p && p + 5 < |buf|
  {
    if !authority && SignedWord(buf[p + 4], buf[p + 5]) != 1 then [ClassNotOne] else []
  }

  /** A record whose owner is a 2-byte pointer, outside the authority section, with a TYPE
      whose low byte (at p+3) is no known code: `.get()` throws before anything is printed. */
  lemma UnknownTypeThrows(buf: Bytes, p: int, owner: NameAt, qName: Bytes, auth: bool, depth: nat)
    requires 0 <= p && p + 3 < |buf| && IsPointer(buf[p])
    requires ReadName(buf, p, depth) == Done(owner)
    requires ValueOf(buf[p + 3]) == None
    ensures Answer(buf, p, qName, auth, false, depth) == Emitted([], Threw(NoSuchElement))
  {
    assert RecordHead(buf, p, false, depth) == Threw(NoSuchElement);
  }

  /** A record whose owner is a 2-byte pointer (TYPE at p+2, CLASS at p+4, TTL at p+6,
      RDLENGTH at p+10) and whose RDLENGTH is 0: `parseAnswer` returns p+11, the second byte
      of RDLENGTH, and prints no record line, only the CLASS warning if CLASS is not 1. */
  lemma EmptyRdataRecord(buf: Bytes, p: int, owner: NameAt, qName: Bytes, auth: bool,
                         authority: bool, depth: nat)
    requires 0 <= p && p + 11 < |buf| && IsPointer(buf[p])
    requires ReadName(buf, p, depth) == Done(owner)
    requires authority || ValueOf(buf[p + 3]).Some?
    requires SignedWord(buf[p + 10], buf[p + 11]) == 0
    ensures Answer(buf, p, qName, auth, authority, depth) == Emitted(PointerOwnerWarning(buf, p, authority), Done(p + 11))
  {
    PointerOwnerHead(buf, p, owner, authority, depth);
    var head := RecordHead(buf, p, authority, depth);
    FixedTail(buf, p + 6, head.value.qType, qName, auth, depth);
  }

  /** An authority record whose owner is a 2-byte pointer and whose RDLENGTH is positive:
      `parseAnswer` prints nothing and returns p+12+RDLENGTH, the byte after RDATA. */
  lemma SkippedRecord(buf: Bytes, p: int, owner: NameAt, qName: Bytes, auth: bool, depth: nat)
    requires 0 <= p && p + 11 < |buf| && IsPointer(buf[p])
    requires ReadName(buf, p, depth) == Done(owner)
    requires SignedWord(buf[p + 10], buf[p + 11]) > 0
    ensures Answer(buf, p, qName, auth, true, depth) == Emitted([], Done(p + 12 + SignedWord(buf[p + 10], buf[p + 11])))
  {
    PointerOwnerHead(buf, p, owner, true, depth);
    FixedTail(buf, p + 6, None, qName, auth, depth);
  }

  /** An A record whose owner is a 2-byte pointer and whose RDLENGTH is positive: after the
      CLASS warning (if CLASS is not 1, and decoding goes on), `parseAnswer` prints the
      RDLENGTH bytes of RDATA as unsigned octets with the masked TTL, and returns
      p+12+RDLENGTH, the byte after RDATA. */
  lemma AddressRecord(buf: Bytes, p: int, owner: NameAt, qName: Bytes, auth: bool, depth: nat)
    requires 0 <= p && p + 11 < |buf| && IsPointer(buf[p])
    requires ReadName(buf, p, depth) == Done(owner)
    requires ValueOf(buf[p + 3]) == Some(A) && SignedWord(buf[p + 10], buf[p + 11]) > 0
    ensures var rdLength := SignedWord(buf[p + 10], buf[p + 11]);
      Answer(buf, p, qName, auth, false, depth) ==
        Emitted(PointerOwnerWarning(buf, p, false) +
                  [IpLine(Octets(CopyOfRange(buf, p + 12, p + 12 + rdLength).value),
                          Ttl(buf[p + 6], buf[p + 7], buf[p + 8], buf[p + 9]), auth)],
                Done(p + 12 + rdLength))
  {
    PointerOwnerHead(buf, p, owner, false, depth);
    FixedTail(buf, p + 6, Some(A), qName, auth, depth);
  }

  /** An MX record whose owner is a 2-byte pointer and whose RDLENGTH is positive: the
      preference is read (signed) from the first two RDATA bytes, p+12 and p+13, the
      exchange name starts at p+14, and the cursor returned is where the exchange name's
      reader stopped, whatever RDLENGTH says. */
  lemma MailExchangeRecord(buf: Bytes, p: int, owner: NameAt, exchange: NameAt, qName: Bytes,
                           auth: bool, depth: nat)
    requires 0 <= p && p + 13 < |buf| && IsPointer(buf[p])
    requires ReadName(buf, p, depth) == Done(owner)
    requires ValueOf(buf[p + 3]) == Some(MX) && SignedWord(buf[p + 10], buf[p + 11]) > 0
    requires PointerOrName(buf, p + 14, qName, depth) == Done(exchange)
    ensures Answer(buf, p, qName, auth, false, depth) ==
      Emitted(PointerOwnerWarning(buf, p, false) +
                [MxLine(exchange.name, SignedWord(buf[p + 12], buf[p + 13]),
                        Ttl(buf[p + 6], buf[p + 7], buf[p + 8], buf[p + 9]), auth)],
              Done(exchange.next))
  {
    PointerOwnerHead(buf, p, owner, false, depth);
  }

  /** A CNAME or NS record whose owner is a 2-byte pointer and whose RDLENGTH is positive:
      the name is read from p+12, the first RDATA byte, and the cursor returned is where
      its reader stopped, whatever RDLENGTH says. When RDATA starts with a pointer, that is
      p+13, the pointer's second byte, so the next record is read from there. */
  lemma NameRecord(buf: Bytes, p: int, owner: NameAt, name: NameAt, qName: Bytes,
                   auth: bool, depth: nat)
    requires 0 <= p && p + 12 < |buf| && IsPointer(buf[p])
    requires ReadName(buf, p, depth) == Done(owner)
    requires ValueOf(buf[p + 3]) == Some(CNAME) || ValueOf(buf[p + 3]) == Some(NS)
    requires SignedWord(buf[p + 10], buf[p + 11]) > 0
    requires PointerOrName(buf, p + 12, qName, depth) == Done(name)
    ensures var ttl := Ttl(buf[p + 6], buf[p + 7], buf[p + 8], buf[p + 9]);
      Answer(buf, p, qName, auth, false, depth) ==
        Emitted(PointerOwnerWarning(buf, p, false) +
                  [if buf[p + 3] == 5 then CnameLine(name.name, ttl, auth) else NsLine(name.name, ttl, auth)],
                Done(name.next))
    ensures IsPointer(buf[p + 12]) ==> name.next == p + 13
  {
    PointerOwnerHead(buf, p, owner, false, depth);
  }

  /** A record whose owner is written out as labels (not a pointer), outside the authority
      section: `parseName` returns the byte after the owner's zero byte, which is where TYPE
      starts, and `parseAnswer` still moves on 2, so it reads the high byte of CLASS as the
      TYPE code. For class IN that byte is 0, which is no code, and `.get()` throws. */
  lemma UncompressedOwnerThrows(buf: Bytes, p: int, labels: seq<Bytes>, qName: Bytes, auth: bool, depth: nat)
    requires |labels| >= 1 && EncodedAt(buf, p, labels)
    requires p + WireLength(labels) + 3 < |buf|
    requires buf[p + WireLength(labels)] == 0 && buf[p + WireLength(labels) + 3] == 0
    ensures Answer(buf, p, qName, auth, false, depth) == Emitted([], Threw(NoSuchElement))
  {
    ReadEncodedName(buf, p, labels, depth);
    assert ValueOf(0) == None;
    LabelOwnerHead(buf, p, NameAt(Join(labels), p + WireLength(labels) + 1), false, depth);
  }

  /** The first part of a record whose owner is not a pointer: with `n` the cursor
      `parseName` returned, TYPE is the byte at n+2, CLASS the bytes n+3 and n+4, and TTL
      starts at n+5; the authority section reads neither TYPE nor CLASS. */
  lemma LabelOwnerHead(buf: Bytes, p: int, owner: NameAt, authority: bool, depth: nat)
    requires 0 <= p < |buf| && !IsPointer(buf[p])
    requires ReadName(buf, p, depth) == Done(owner)
    requires 0 <= owner.next + 2 < |buf|
    ensures authority ==> RecordHead(buf, p, authority, depth) == Done(RecordStart(owner.next + 5, None, true))
    ensures !authority && ValueOf(buf[owner.next + 2]) == None ==>
      RecordHead(buf, p, authority, depth) == Threw(NoSuchElement)
    ensures !authority && ValueOf(buf[owner.next + 2]).Some? && owner.next + 4 < |buf| ==>
      RecordHead(buf, p, authority, depth) ==
        Done(RecordStart(owner.next + 5, ValueOf(buf[owner.next + 2]),
                         SignedWord(buf[owner.next + 3], buf[owner.next + 4]) == 1))
  {
  }

  /** The first part of a record whose owner is a pointer: TTL starts at p+6, TYPE is the
      byte at p+3 and CLASS the bytes p+4 and p+5. */
  lemma PointerOwnerHead(buf: Bytes, p: int, owner: NameAt, authority: bool, depth: nat)
    requires 0 <= p && p + 11 < |buf| && IsPointer(buf[p])
    requires ReadName(buf, p, depth) == Done(owner)
    ensures RecordHead(buf, p, authority, depth) ==
      if authority then Done(RecordStart(p + 6, None, true))
      else match ValueOf(buf[p + 3])
        case None => Threw(NoSuchElement)
        case Some(t) => Done(RecordStart(p + 6, Some(t), SignedWord(buf[p + 4], buf[p + 5]) == 1))
  {
  }

  /** The second part of a record whose TTL starts at `at`: RDLENGTH 0 returns its second
      byte, an uninterpreted record skips RDATA, and an A record prints its octets and skips
      them. */
  lemma FixedTail(buf: Bytes, at: int, qType: Option<QueryType>, qName: Bytes, auth: bool, depth: nat)
    requires 0 <= at && at + 5 < |buf|
    ensures var e := RecordTail(buf, at, qType, qName, auth, depth);
      var rdLength := SignedWord(buf[at + 4], buf[at + 5]);
      (rdLength == 0 ==> e == Done(RecordEnd(at + 5, None))) &&
      (qType == None && rdLength > 0 ==> e == Done(RecordEnd(at + 6 + rdLength, None))) &&
      (qType == Some(A) && rdLength > 0 ==>
         e == Done(RecordEnd(at + 6 + rdLength,
                             Some(IpLine(Octets(CopyOfRange(buf, at + 6, at + 6 + rdLength).value),
                                         Ttl(buf[at], buf[at + 1], buf[at + 2], buf[at + 3]), auth)))))
  {
  }

  // ---------------------------------------------------------------- compressed names

  /** `parseName` on labels followed by a pointer: the labels, then the whole name read at
      the pointer's target as one more component, joined with dots. The loop goes on after
      the pointer's two bytes, so it stops only if the byte there is 0. The cursor returned
      is the byte after that zero byte, or, when the name is the pointer alone, the zero
      byte itself (the byte just past the pointer). */
  lemma CompressedName(buf: Bytes, p: int, labels: seq<Bytes>, target: NameAt, depth: nat)
    requires EncodedAt(buf, p, labels) && depth > 0
    requires 0 <= p && p + WireLength(labels) + 2 < |buf|
    requires IsPointer(buf[p + WireLength(labels)]) && buf[p + WireLength(labels) + 2] == 0
    requires ReadName(buf, PointerOffset(buf[p + WireLength(labels)], buf[p + WireLength(labels) + 1]), depth - 1) == Done(target)
    ensures ReadName(buf, p, depth) ==
      Done(NameAt(Join(labels + [target.name]), if |labels| == 0 then p + 2 else p + WireLength(labels) + 3))
  {
    var run := LabelRun(labels + [target.name], p + WireLength(labels) + 2);
    LoopThroughPointer(buf, p, labels, target, depth);
    if |labels| == 0 {
      ReadPointerName(buf, p, run, depth);
    } else {
      ReadLabelName(buf, p, run, depth);
    }
  }

  /** The loop of `parseName` over such a name. */
  lemma LoopThroughPointer(buf: Bytes, p: int, labels: seq<Bytes>, target: NameAt, depth: nat)
    requires EncodedAt(buf, p, labels) && depth > 0
    requires 0 <= p && p + WireLength(labels) + 2 < |buf|
    requires IsPointer(buf[p + WireLength(labels)]) && buf[p + WireLength(labels) + 2] == 0
    requires ReadName(buf, PointerOffset(buf[p + WireLength(labels)], buf[p + WireLength(labels) + 1]), depth - 1) == Done(target)
    ensures NameLoop(buf, p, [], depth) == Done(LabelRun(labels + [target.name], p + WireLength(labels) + 2))
  {
    var w := p + WireLength(labels);
    NameLoopOverLabels(buf, p, [], labels, depth);
    PointerThenZero(buf, w, [] + labels, target, depth);
    assert [] + labels == labels;
  }

  /** A name that starts with a pointer ends at the zero byte, not past it. */
  lemma ReadPointerName(buf: Bytes, p: int, run: LabelRun, depth: nat)
    requires 0 <= p < |buf| && IsPointer(buf[p])
    requires NameLoop(buf, p, [], depth) == Done(run)
    ensures ReadName(buf, p, depth) == Done(NameAt(Join(run.labels), run.at))
  {
  }

  /** A pointer followed by the zero byte ends `parseName`'s loop two bytes on, having added
      the name at the pointer's target. */
  lemma PointerThenZero(buf: Bytes, i: int, labels: seq<Bytes>, target: NameAt, depth: nat)
    requires depth > 0 && 0 <= i && i + 2 < |buf|
    requires IsPointer(buf[i]) && buf[i + 2] == 0
    requires ReadName(buf, PointerOffset(buf[i], buf[i + 1]), depth - 1) == Done(target)
    ensures NameLoop(buf, i, labels, depth) == Done(LabelRun(labels + [target.name], i + 2))
  {
    assert NameLoop(buf, i, labels, depth) == FollowPointer(buf, i, buf[i], labels, depth);
    NameLoopEnd(buf, i + 2, labels + [target.name], depth);
  }

  /** The example of RFC 1035 section 4.1.4 in small: "example.com" written out at offset
      12, and later "www" followed by a pointer to offset 12 (0xC0 0x0C), which reads as
      "www.example.com", with the cursor after the zero byte that follows the pointer. */
  lemma ExampleCompressedName(buf: Bytes, depth: nat)
    requires depth >= 1 && |buf| >= 32
    requires buf[12..25] == [7, 101, 120, 97, 109, 112, 108, 101, 3, 99, 111, 109, 0]
    requires buf[25..32] == [3, 119, 119, 119, -64, 12, 0]
    ensures ReadName(buf, 25, depth) ==
      Done(NameAt([119, 119, 119, 46, 101, 120, 97, 109, 112, 108, 101, 46, 99, 111, 109], 32))
  {
    ExampleLayout(buf);
    ReadEncodedName(buf, 12, ExampleLabels, depth - 1);
    CompressedName(buf, 25, [Www], NameAt(Join(ExampleLabels), 25), depth);
    ExampleJoin();
  }

  const ExampleLabels: seq<Bytes> := [[101, 120, 97, 109, 112, 108, 101], [99, 111, 109]]
  const Www: Bytes := [119, 119, 119]

  /** Where the labels and the pointer of the example sit. */
  lemma ExampleLayout(buf: Bytes)
    requires |buf| >= 32
    requires buf[12..25] == [7, 101, 120, 97, 109, 112, 108, 101, 3, 99, 111, 109, 0]
    requires buf[25..32] == [3, 119, 119, 119, -64, 12, 0]
    ensures EncodedAt(buf, 12, ExampleLabels) && WireLength(ExampleLabels) == 12 && buf[24] == 0
    ensures EncodedAt(buf, 25, [Www]) && WireLength([Www]) == 4 && IsPointer(buf[29])
    ensures PointerOffset(buf[29], buf[30]) == 12 && buf[31] == 0
  {
    ExampleQuestionLayout(buf);
    ExampleOwnerLayout(buf);
  }

  lemma ExampleQuestionLayout(buf: Bytes)
    requires |buf| >= 25
    requires buf[12..25] == [7, 101, 120, 97, 109, 112, 108, 101, 3, 99, 111, 109, 0]
    ensures EncodedAt(buf, 12, ExampleLabels) && WireLength(ExampleLabels) == 12 && buf[24] == 0
  {
    var e := buf[12..25];
    SliceOfSlice(buf, 12, 13, e, 1, 8);
    SliceOfSlice(buf, 12, 13, e, 9, 12);
    assert e[1..8] == ExampleLabels[0] && e[9..12] == ExampleLabels[1];
    assert buf[12] == e[0] && buf[20] == e[8] && buf[24] == e[12];
    assert EncodedAt(buf, 24, ExampleLabels[2..]);
    assert EncodedAt(buf, 20, ExampleLabels[1..]);
  }

  lemma ExampleOwnerLayout(buf: Bytes)
    requires |buf| >= 32
    requires buf[25..32] == [3, 119, 119, 119, -64, 12, 0]
    ensures EncodedAt(buf, 25, [Www]) && WireLength([Www]) == 4 && IsPointer(buf[29])
    ensures PointerOffset(buf[29], buf[30]) == 12 && buf[31] == 0
  {
    var e := buf[25..32];
    SliceOfSlice(buf, 25, 7, e, 1, 4);
    assert e[1..4] == Www;
    assert buf[25] == e[0] && buf[29] == e[4] && buf[30] == e[5] && buf[31] == e[6];
    assert EncodedAt(buf, 29, [Www][1..]);
  }

  /** "www" and "example.com" joined with a dot. */
  lemma ExampleJoin()
    ensures Join([Www] + [Join(ExampleLabels)]) == [119, 119, 119, 46, 101, 120, 97, 109, 112, 108, 101, 46, 99, 111, 109]
  {
    assert Join(ExampleLabels) == [101, 120, 97, 109, 112, 108, 101, 46, 99, 111, 109];
    assert [Www] + [Join(ExampleLabels)] == [Www, Join(ExampleLabels)];
  }

  // ---------------------------------------------------------------- parsePointerOrName

  /** `parsePointerOrName` on a pointer cuts the question name at the pointer's offset less
      12, and returns the index of the pointer's second byte. Its low byte is read signed:
      when it is 0x80 or more, the cut is 256 characters before the offset `parseName`
      would follow. A pointer in the buffer's last byte has no second byte to read, and
      anything but a pointer goes to `parseName`. */
  lemma PointerSuffix(buf: Bytes, i: int, qName: Bytes, depth: nat)
    requires 0 <= i < |buf|
    ensures IsPointer(buf[i]) && i + 1 < |buf| ==>
      var k := PointerOffset(buf[i], buf[i + 1]) - HeaderLength - (if buf[i + 1] < 0 then 256 else 0);
      PointerOrName(buf, i, qName, depth) ==
        if 0 <= k <= |qName| then Done(NameAt(qName[k..], i + 1)) else Threw(StringIndexOutOfBounds)
    ensures IsPointer(buf[i]) && i + 1 == |buf| ==> PointerOrName(buf, i, qName, depth) == Threw(ArrayIndexOutOfBounds)
    ensures !IsPointer(buf[i]) ==> PointerOrName(buf, i, qName, depth) == ReadName(buf, i, depth)
  {
  }

  /** The shortcut of `parsePointerOrName` is sound for pointers to the question: when the
      question name is written out as labels at offset 12 and a pointer (with a low byte
      below 0x80) targets the start of its `j`-th label, cutting the dotted question name
      gives the very name `parseName` reads at the target, because every label takes as many
      characters in the dotted name as bytes on the wire (its length byte becomes the dot). */
  lemma QuestionPointerAgrees(buf: Bytes, labels: seq<Bytes>, j: int, i: int, depth: nat)
    requires EncodedAt(buf, HeaderLength, labels) && 0 <= j < |labels|
    requires HeaderLength + WireLength(labels) < |buf| && buf[HeaderLength + WireLength(labels)] == 0
    requires 0 <= i && i + 1 < |buf| && IsPointer(buf[i]) && buf[i + 1] >= 0
    requires PointerOffset(buf[i], buf[i + 1]) == HeaderLength + WireLength(labels[..j])
    ensures PointerOrName(buf, i, Join(labels), depth) == Done(NameAt(Join(labels[j..]), i + 1))
    ensures ReadName(buf, HeaderLength + WireLength(labels[..j]), depth) ==
      Done(NameAt(Join(labels[j..]), HeaderLength + WireLength(labels) + 1))
  {
    QuestionLabelRead(buf, labels, j, depth);
    JoinSuffix(labels, j);
    PointerSuffix(buf, i, Join(labels), depth);
  }

  /** `parseName` at the start of the `j`-th label of the question reads the remaining
      labels, up to the question's zero byte. */
  lemma QuestionLabelRead(buf: Bytes, labels: seq<Bytes>, j: int, depth: nat)
    requires EncodedAt(buf, HeaderLength, labels) && 0 <= j < |labels|
    requires HeaderLength + WireLength(labels) < |buf| && buf[HeaderLength + WireLength(labels)] == 0
    ensures ReadName(buf, HeaderLength + WireLength(labels[..j]), depth) ==
      Done(NameAt(Join(labels[j..]), HeaderLength + WireLength(labels) + 1))
  {
    EncodedAtSuffix(buf, HeaderLength, labels, j);
    WireLengthSplit(labels, j);
    ReadEncodedName(buf, HeaderLength + WireLength(labels[..j]), labels[j..], depth);
  }

  /** The labels of a run from the `j`-th on are written out where the first `j` end. */
  lemma {:induction false} EncodedAtSuffix(buf: Bytes, p: int, labels: seq<Bytes>, j: int)
    requires EncodedAt(buf, p, labels) && 0 <= j <= |labels|
    ensures EncodedAt(buf, p + WireLength(labels[..j]), labels[j..])
    decreases j
  {
    if j > 0 {
      EncodedAtSuffix(buf, p + 1 + |labels[0]|, labels[1..], j - 1);
      assert labels[..j][1..] == labels[1..][..j - 1];
      assert labels[1..][j - 1..] == labels[j..];
    } else {
      assert labels[..j] == [] && labels[j..] == labels;
    }
  }

  /** The wire length of a run is that of its first `j` labels plus that of the others. */
  lemma {:induction false} WireLengthSplit(labels: seq<Bytes>, j: int)
    requires 0 <= j <= |labels|
    ensures WireLength(labels) == WireLength(labels[..j]) + WireLength(labels[j..])
    decreases j
  {
    if j > 0 {
      WireLengthSplit(labels[1..], j - 1);
      assert labels[..j][1..] == labels[1..][..j - 1];
      assert labels[1..][j - 1..] == labels[j..];
    } else {
      assert labels[..j] == [] && labels[j..] == labels;
    }
  }

  /** In the dotted name, the `j`-th label starts at the wire length of the labels before
      it, and the name from there on is the remaining labels joined with dots. */
  lemma {:induction false} JoinSuffix(labels: seq<Bytes>, j: int)
    requires 0 <= j < |labels|
    ensures WireLength(labels[..j]) <= |Join(labels)|
    ensures Join(labels)[WireLength(labels[..j])..] == Join(labels[j..])
  {
    if j > 0 {
      JoinSuffix(labels[1..], j - 1);
      assert labels[..j][1..] == labels[1..][..j - 1];
      assert labels[1..][j - 1..] == labels[j..];
      assert Join(labels) == labels[0] + [Dot] + Join(labels[1..]);
    } else {
      assert labels[..j] == [] && labels[j..] == labels;
    }
  }

  // ---------------------------------------------------------------- the whole response

  /** A response shorter than the header throws before printing anything; any other is
      decoded past the header whatever its RCODE, and prints the header lines first. */
  lemma HeaderFirst(buf: Bytes, depth: nat)
    ensures |buf| < HeaderLength ==> Response(buf, depth) == Emitted([], Threw(ArrayIndexOutOfBounds))
    ensures |buf| >= HeaderLength ==> HeaderLines(buf) <= Response(buf, depth).lines
  {
  }

  /** When the question name reads and ANCOUNT is positive, the line right after the header
      lines is the banner of the answer section, with ANCOUNT. */
  lemma AnswerBannerFollowsHeader(buf: Bytes, depth: nat)
    requires |buf| >= HeaderLength && ReadName(buf, HeaderLength, depth).Done? && AnCount(buf) > 0
    ensures var lines := Response(buf, depth).lines;
      |lines| > |HeaderLines(buf)| && lines[|HeaderLines(buf)|] == Banner(AnswerSection, AnCount(buf))
  {
    var question := ReadName(buf, HeaderLength, depth).value;
    var i := question.next + 4;
    var answers := SectionRun(buf, i, AnCount(buf), AnswerSection, question.name, Authoritative(buf), depth);
    assert answers.lines[0] == Banner(AnswerSection, AnCount(buf));
    var body := Sections(buf, i, question.name, depth);
    assert body.lines[..|answers.lines|] == answers.lines;
  }

  /** A response that announces no record (every count zero or negative) prints the header
      lines only, and returns normally once the question name reads. */
  lemma NoRecordsOnlyHeader(buf: Bytes, depth: nat)
    requires |buf| >= HeaderLength && ReadName(buf, HeaderLength, depth).Done?
    requires AnCount(buf) <= 0 && NsCount(buf) <= 0 && ArCount(buf) <= 0
    ensures Response(buf, depth) == Emitted(HeaderLines(buf), Done(()))
  {
    var question := ReadName(buf, HeaderLength, depth).value;
    var i := question.next + 4;
    var auth := Authoritative(buf);
    assert SectionRun(buf, i, AnCount(buf), AnswerSection, question.name, auth, depth) == Emitted([], Done(i));
    assert SectionRun(buf, i, NsCount(buf), AuthoritySection, question.name, auth, depth) == Emitted([], Done(i));
    assert SectionRun(buf, i, ArCount(buf), AdditionalSection, question.name, auth, depth) == Emitted([], Done(i));
    assert HeaderLines(buf) + [] == HeaderLines(buf);
  }

  /** Between the lines of the answer section and those of the additional section, the
      authority section adds its banner and nothing else. */
  lemma AuthorityBetween(buf: Bytes, i: int, qName: Bytes, depth: nat, answerLines: seq<Line>, j: int, k: int)
    requires |buf| >= HeaderLength
    requires SectionRun(buf, i, AnCount(buf), AnswerSection, qName, Authoritative(buf), depth) == Emitted(answerLines, Done(j))
    requires SectionRun(buf, j, NsCount(buf), AuthoritySection, qName, Authoritative(buf), depth).outcome == Done(k)
    ensures Sections(buf, i, qName, depth) ==
      Prefix(answerLines + (if NsCount(buf) > 0 then [Banner(AuthoritySection, NsCount(buf))] else []),
             SectionRun(buf, k, ArCount(buf), AdditionalSection, qName, Authoritative(buf), depth))
  {
    AuthorityRecordsSilent(buf, j, Iterations(NsCount(buf)), qName, Authoritative(buf), depth);
    assert SectionRun(buf, j, NsCount(buf), AuthoritySection, qName, Authoritative(buf), depth).lines ==
      (if NsCount(buf) > 0 then [Banner(AuthoritySection, NsCount(buf))] else []) + [];
  }
}
