/** Encoder and name readers together: a query built by `composeDNSQuery` is read back by
    `parseName` (DnsClient.java) and by the question loop of main.java, and both leave the
    cursor exactly at the end of the question. */
module RoundTrip {
  import opened JavaBytes
  import opened QueryTypes
  import opened Encoder
  import opened NameReader
  import opened LegacyClient

  /** Labels the encoder writes faithfully: non-empty, at most 63 bytes (so the length byte
      is neither negative nor a pointer), and free of dots (so splitting keeps them whole). */
  predicate ValidLabels(labels: seq<Bytes>)
  {
    ShortLabels(labels) && forall k :: 0 <= k < |labels| ==> 1 <= |labels[k]| && Dot !in labels[k]
  }

  /** Every label is 1 to 63 bytes long. */
  predicate ShortLabels(labels: seq<Bytes>)
  {
    |labels| == 0 || (1 <= |labels[0]| <= 63 && ShortLabels(labels[1..]))
  }

  /** `labels` written out from `p` the way the encoder writes them: each label's length
      byte (1 to 63), then its bytes. */
  predicate EncodedAt(buf: Bytes, p: int, labels: seq<Bytes>)
    decreases |labels|
  {
    |labels| == 0 ||
    (0 <= p < |buf| && 1 <= |labels[0]| <= 63 && buf[p] == |labels[0]| &&
     p + 1 + |labels[0]| <= |buf| && buf[p + 1..p + 1 + |labels[0]|] == labels[0] &&
     EncodedAt(buf, p + 1 + |labels[0]|, labels[1..]))
  }

  /** A slice of a slice is a slice. */
  lemma SliceOfSlice(buf: Bytes, p: int, w: int, e: Bytes, a: int, b: int)
    requires 0 <= p && p + w <= |buf| && 0 <= a <= b <= w
    requires buf[p..p + w] == e
    ensures buf[p + a..p + b] == e[a..b]
  {
    forall k | 0 <= k < b - a
      ensures buf[p + a..p + b][k] == e[a..b][k]
    {
      assert buf[p + a..p + b][k] == buf[p + a + k] == buf[p..p + w][a + k];
    }
  }

  /** `Arrays.copyOfRange` inside the buffer is the slice. */
  lemma CopyInside(buf: Bytes, from: int, to: int)
    requires 0 <= from <= to <= |buf|
    ensures CopyOfRange(buf, from, to) == Done(buf[from..to])
  {
    assert Zeros(0) == [];
    assert buf[from..to] + [] == buf[from..to];
  }

  /** The parts of an encoded run: the first label's length byte, its bytes, the rest. */
  lemma EncodingParts(labels: seq<Bytes>)
    requires |labels| > 0 && 1 <= |labels[0]| <= 63
    ensures var e := EncodeLabels(labels); var n := |labels[0]|;
      e[0] == n && e[1..1 + n] == labels[0] && e[1 + n..] == EncodeLabels(labels[1..])
  {
    var e := EncodeLabels(labels);
    assert e == [ToByte(|labels[0]|)] + labels[0] + EncodeLabels(labels[1..]);
    SmallByte(|labels[0]|);
  }

  /** Casting 0..127 to a byte keeps the value. */
  lemma SmallByte(n: int)
    requires 0 <= n < 128
    ensures ToByte(n) == n
  {
  }

  /** The encoded first label of a run: its length byte, then its bytes. */
  lemma EncodedHead(buf: Bytes, p: int, labels: seq<Bytes>)
    requires |labels| > 0 && 1 <= |labels[0]| <= 63
    requires 0 <= p && p + WireLength(labels) <= |buf|
    requires buf[p..p + WireLength(labels)] == EncodeLabels(labels)
    ensures buf[p] == |labels[0]|
    ensures buf[p + 1..p + 1 + |labels[0]|] == labels[0]
    ensures buf[p + 1 + |labels[0]|..p + WireLength(labels)] == EncodeLabels(labels[1..])
  {
    EncodingParts(labels);
    EncodedPart(buf, p, WireLength(labels), EncodeLabels(labels), 0, 1);
    EncodedPart(buf, p, WireLength(labels), EncodeLabels(labels), 1, 1 + |labels[0]|);
    EncodedPart(buf, p, WireLength(labels), EncodeLabels(labels), 1 + |labels[0]|, WireLength(labels));
  }

  /** A part of an encoding held in a slice of the buffer sits at the matching offsets. */
  lemma EncodedPart(buf: Bytes, p: int, w: int, e: Bytes, a: int, b: int)
    requires 0 <= p && p + w <= |buf| && 0 <= a <= b <= w == |e|
    requires buf[p..p + w] == e
    ensures buf[p + a..p + b] == e[a..b] && (b == w ==> e[a..b] == e[a..])
    ensures a < b ==> buf[p + a] == e[a]
  {
    SliceOfSlice(buf, p, w, e, a, b);
    if a < b {
      assert buf[p + a] == buf[p..p + w][a];
    }
  }

  /** The facts about the first label of an encoded run that a reader needs. */
  lemma LabelStep(buf: Bytes, p: int, end: int, labels: seq<Bytes>)
    requires ShortLabels(labels) && |labels| > 0
    requires 0 <= p && end == p + WireLength(labels) <= |buf|
    requires buf[p..end] == EncodeLabels(labels)
    ensures buf[p] == |labels[0]| && 1 <= |labels[0]| <= 63
    ensures CopyOfRange(buf, p + 1, p + 1 + |labels[0]|) == Done(labels[0])
    ensures ShortLabels(labels[1..]) && end == p + 1 + |labels[0]| + WireLength(labels[1..])
    ensures buf[p + 1 + |labels[0]|..end] == EncodeLabels(labels[1..])
  {
    EncodedHead(buf, p, labels);
    CopyInside(buf, p + 1, p + 1 + |labels[0]|);
  }

  /** One label of `parseName`'s loop: a length byte that is neither 0 nor a pointer. */
  lemma NameLoopLabel(buf: Bytes, i: int, next: int, acc: seq<Bytes>, part: Bytes, depth: nat)
    requires 0 <= i < |buf| && 1 <= buf[i] <= 63 && next == i + 1 + buf[i]
    requires CopyOfRange(buf, i + 1, next) == Done(part)
    ensures NameLoop(buf, i, acc, depth) == NameLoop(buf, next, acc + [part], depth)
  {
    assert NameLoop(buf, i, acc, depth) == TakeLabel(buf, i, buf[i], acc, depth);
  }

  /** The zero byte ends `parseName`'s loop. */
  lemma NameLoopEnd(buf: Bytes, i: int, acc: seq<Bytes>, depth: nat)
    requires 0 <= i < |buf| && buf[i] == 0
    ensures NameLoop(buf, i, acc, depth) == Done(LabelRun(acc, i))
  {
  }

  /** A run of labels encoded in a slice of the buffer is written out there label by label. */
  lemma {:induction false} EncodedAtSlice(buf: Bytes, p: int, labels: seq<Bytes>)
    requires ShortLabels(labels)
    requires 0 <= p && p + WireLength(labels) <= |buf|
    requires buf[p..p + WireLength(labels)] == EncodeLabels(labels)
    ensures EncodedAt(buf, p, labels)
    decreases |labels|
  {
    if |labels| > 0 {
      LabelStep(buf, p, p + WireLength(labels), labels);
      EncodedAtSlice(buf, p + 1 + |labels[0]|, labels[1..]);
    }
  }

  /** `parseName`'s loop walks a run of encoded labels one label at a time, whatever comes
      after it. */
  lemma {:induction false} NameLoopOverLabels(buf: Bytes, p: int, acc: seq<Bytes>, labels: seq<Bytes>, depth: nat)
    requires EncodedAt(buf, p, labels)
    ensures NameLoop(buf, p, acc, depth) == NameLoop(buf, p + WireLength(labels), acc + labels, depth)
    decreases |labels|
  {
    if |labels| > 0 {
      var n := |labels[0]|;
      CopyInside(buf, p + 1, p + 1 + n);
      NameLoopLabel(buf, p, p + 1 + n, acc, labels[0], depth);
      NameLoopOverLabels(buf, p + 1 + n, acc + [labels[0]], labels[1..], depth);
      assert acc + labels == (acc + [labels[0]]) + labels[1..];
    } else {
      assert acc + labels == acc;
    }
  }

  /** One label of main.java's question loop. */
  lemma QuestionLoopLabel(buf: Bytes, i: int, next: int, acc: seq<Bytes>, part: Bytes)
    requires 0 <= i < |buf| && 1 <= buf[i] && next == i + 1 + buf[i]
    requires CopyOfRange(buf, i + 1, next) == Done(part)
    ensures QuestionLabels(buf, i, acc) == QuestionLabels(buf, next, acc + [part])
  {
    assert QuestionLabels(buf, i, acc) == QuestionLabel(buf, i, buf[i], acc);
  }

  /** main.java's question loop walks the same run in the same way. */
  lemma {:induction false} QuestionLoopOverLabels(buf: Bytes, p: int, acc: seq<Bytes>, labels: seq<Bytes>)
    requires EncodedAt(buf, p, labels)
    ensures QuestionLabels(buf, p, acc) == QuestionLabels(buf, p + WireLength(labels), acc + labels)
    decreases |labels|
  {
    if |labels| > 0 {
      var n := |labels[0]|;
      CopyInside(buf, p + 1, p + 1 + n);
      QuestionLoopLabel(buf, p, p + 1 + n, acc, labels[0]);
      QuestionLoopOverLabels(buf, p + 1 + n, acc + [labels[0]], labels[1..]);
      assert acc + labels == (acc + [labels[0]]) + labels[1..];
    } else {
      assert acc + labels == acc;
    }
  }

  /** `parseName` at the start of a run of encoded labels ending in the zero byte reads the
      labels joined with dots, and moves the cursor just past the zero byte; with no labels
      (the root name, a lone zero byte) it reads the empty name. */
  lemma ReadEncodedName(buf: Bytes, p: int, labels: seq<Bytes>, depth: nat)
    requires 0 <= p && EncodedAt(buf, p, labels)
    requires p + WireLength(labels) < |buf| && buf[p + WireLength(labels)] == 0
    ensures ReadName(buf, p, depth) == Done(NameAt(Join(labels), p + WireLength(labels) + 1))
    ensures !IsPointer(buf[p])
  {
    NameLoopOfEncoded(buf, p, labels, depth);
    ReadLabelName(buf, p, LabelRun(labels, p + WireLength(labels)), depth);
  }

  /** `parseName`'s loop over such a run stops on the zero byte with the labels. */
  lemma NameLoopOfEncoded(buf: Bytes, p: int, labels: seq<Bytes>, depth: nat)
    requires EncodedAt(buf, p, labels)
    requires 0 <= p + WireLength(labels) < |buf| && buf[p + WireLength(labels)] == 0
    ensures NameLoop(buf, p, [], depth) == Done(LabelRun(labels, p + WireLength(labels)))
  {
    NameLoopOverLabels(buf, p, [], labels, depth);
    NameLoopEnd(buf, p + WireLength(labels), labels, depth);
    assert [] + labels == labels;
  }

  /** A name that does not start with a pointer ends one byte past the zero byte. */
  lemma ReadLabelName(buf: Bytes, p: int, run: LabelRun, depth: nat)
    requires 0 <= p < |buf| && !IsPointer(buf[p])
    requires NameLoop(buf, p, [], depth) == Done(run)
    ensures ReadName(buf, p, depth) == Done(NameAt(Join(run.labels), run.at + 1))
  {
  }

  /** main.java's question loop over the same run stops on the zero byte with the labels. */
  lemma ReadEncodedQuestion(buf: Bytes, p: int, labels: seq<Bytes>)
    requires EncodedAt(buf, p, labels)
    requires 0 <= p + WireLength(labels) < |buf| && buf[p + WireLength(labels)] == 0
    ensures QuestionLabels(buf, p, []) == Done(LabelRun(labels, p + WireLength(labels)))
  {
    QuestionLoopOverLabels(buf, p, [], labels);
    assert [] + labels == labels;
  }

  /** The labels of a name the encoder splits correctly come back from its query. */
  lemma QueryLabels(labels: seq<Bytes>, queryType: QueryType, id: int)
    requires |labels| >= 1 && ValidLabels(labels) && 0 <= id < 65536
    ensures var q := QueryBytes(Join(labels), queryType, id);
      |q| == HeaderLength + WireLength(labels) + 5 &&
      q[HeaderLength..HeaderLength + WireLength(labels)] == EncodeLabels(labels) &&
      q[HeaderLength + WireLength(labels)] == 0
  {
    SplitJoin(labels);
  }

  /** The question of such a query holds the labels one by one, then the zero byte. */
  lemma QueryEncodedAt(labels: seq<Bytes>, queryType: QueryType, id: int)
    requires |labels| >= 1 && ValidLabels(labels) && 0 <= id < 65536
    ensures var q := QueryBytes(Join(labels), queryType, id);
      |q| == HeaderLength + WireLength(labels) + 5 &&
      EncodedAt(q, HeaderLength, labels) && q[HeaderLength + WireLength(labels)] == 0
  {
    QueryLabels(labels, queryType, id);
    EncodedAtSlice(QueryBytes(Join(labels), queryType, id), HeaderLength, labels);
  }

  /** Round trip through DnsClient.java: `parseName(composeDNSQuery(name, t), 12)` is the
      name again, and the cursor it returns plus the 4 bytes of QTYPE and QCLASS is the end of
      the query. */
  lemma QueryRoundTrip(labels: seq<Bytes>, queryType: QueryType, id: int, depth: nat)
    requires |labels| >= 1 && ValidLabels(labels) && 0 <= id < 65536
    ensures var q := QueryBytes(Join(labels), queryType, id);
      ReadName(q, HeaderLength, depth) == Done(NameAt(Join(labels), HeaderLength + WireLength(labels) + 1)) &&
      HeaderLength + WireLength(labels) + 1 + 4 == |q|
  {
    QueryEncodedAt(labels, queryType, id);
    ReadEncodedName(QueryBytes(Join(labels), queryType, id), HeaderLength, labels, depth);
  }

  /** Round trip through main.java: the question loop stops on the terminator of the query's
      name with the labels of the name, and the terminator plus 5 is the end of the query,
      where a response's answer section begins. */
  lemma LegacyQueryRoundTrip(labels: seq<Bytes>, queryType: QueryType, id: int)
    requires |labels| >= 1 && ValidLabels(labels) && 0 <= id < 65536
    ensures var q := QueryBytes(Join(labels), queryType, id);
      QuestionLabels(q, HeaderLength, []) == Done(LabelRun(labels, HeaderLength + WireLength(labels))) &&
      HeaderLength + WireLength(labels) + 5 == |q|
  {
    QueryEncodedAt(labels, queryType, id);
    ReadEncodedQuestion(QueryBytes(Join(labels), queryType, id), HeaderLength, labels);
  }

  /** The empty name is split into one empty label, so the query carries a zero length byte
      and then the terminator; `parseName` stops on the first of them, and the cursor plus 4
      falls one byte short of the end of the query. */
  lemma EmptyNameQuery(queryType: QueryType, id: int, depth: nat)
    requires 0 <= id < 65536
    ensures var q := QueryBytes([], queryType, id);
      |q| == 18 && ReadName(q, HeaderLength, depth) == Done(NameAt([], 13)) && 13 + 4 == |q| - 1
  {
    var q := QueryBytes([], queryType, id);
    assert Split([]) == [[]];
    assert EncodeLabels([[]]) == [0];
    assert q[HeaderLength..|q| - 5] == [0];
    assert q[HeaderLength] == 0;
    assert Join([]) == [];
  }
}
