/** The query encoder, `composeDNSQuery` (DnsClient.java; main.java holds an identical copy):
    a 12-byte header (RFC 1035 section 4.1.1) followed by one question (section 4.1.2). */
module Encoder {
  import opened JavaBytes
  import opened QueryTypes

  const HeaderLength := 12

  /** The query header: the ID low byte first, RD set, QDCOUNT 1, every other field 0. */
  function Header(id: int): Bytes
    requires 0 <= id < 65536
  {
    [ToByte(id), ToByte(id / 256), 1, 0, 0, 1, 0, 0, 0, 0, 0, 0]
  }

  /** The length on the wire of a run of labels: one length byte plus the label itself. */
  function WireLength(labels: seq<Bytes>): nat
  {
    if |labels| == 0 then 0 else 1 + |labels[0]| + WireLength(labels[1..])
  }

  /** Each label as its length (cast to a byte) followed by its bytes. */
  function EncodeLabels(labels: seq<Bytes>): (r: Bytes)
    ensures |r| == WireLength(labels)
  {
    if |labels| == 0 then [] else [ToByte(|labels[0]|)] + labels[0] + EncodeLabels(labels[1..])
  }

  /** The query `composeDNSQuery(name, queryType)` builds when the random ID is `id`. */
  function QueryBytes(name: Bytes, queryType: QueryType, id: int): (q: Bytes)
    requires 0 <= id < 65536
    ensures |q| == HeaderLength + WireLength(Split(name)) + 1 + 4
    // ID, low byte first; flags: only RD (recursion desired) is set
    ensures U8(q[0]) + 256 * U8(q[1]) == id && q[2] == 1 && q[3] == 0
    // QDCOUNT = 1, ANCOUNT = NSCOUNT = ARCOUNT = 0
    ensures q[4] == 0 && q[5] == 1 && forall k :: 6 <= k < HeaderLength ==> q[k] == 0
    // QNAME: the labels of the name, then the zero terminator
    ensures q[HeaderLength..|q| - 5] == EncodeLabels(Split(name)) && q[|q| - 5] == 0
    // QTYPE = the type's code, QCLASS = 1 (IN), both big-endian
    ensures q[|q| - 4..] == [0, Code(queryType), 0, 1]
  {
    ByteOfSmall(id % 256);
    ByteOfSmall(id / 256);
    var q := Header(id) + EncodeLabels(Split(name)) + [0] + [0, Code(queryType), 0, 1];
    assert q[HeaderLength..|q| - 5] == EncodeLabels(Split(name));
    q
  }

  /** A cast to byte of a value in 0..255 is undone by reading the byte as unsigned. */
  lemma ByteOfSmall(x: int)
    requires 0 <= x < 256
    ensures U8(ToByte(x)) == x
  {
  }

  lemma {:induction false} EncodeLabelsSnoc(labels: seq<Bytes>, part: Bytes)
    ensures EncodeLabels(labels + [part]) == EncodeLabels(labels) + [ToByte(|part|)] + part
  {
    if |labels| > 0 {
      assert (labels + [part])[1..] == labels[1..] + [part];
      EncodeLabelsSnoc(labels[1..], part);
    }
  }

  /** `composeDNSQuery`: the header, then the labels appended one by one, then the
      terminator, QTYPE and QCLASS. */
  method ComposeQuery(name: Bytes, queryType: QueryType, id: int) returns (query: Bytes)
    requires 0 <= id < 65536
    ensures query == QueryBytes(name, queryType, id)
  {
    var header := [ToByte(id), ToByte(id / 256), 1, 0, 0, 1, 0, 0, 0, 0, 0, 0];
    var question: Bytes := [];
    var labels := Split(name);
    for i := 0 to |labels|
      invariant question == EncodeLabels(labels[..i])
    {
      var part := labels[i];
      question := question + [ToByte(|part|)];
      var labelBytes: Bytes := [];
      for j := 0 to |part|
        invariant labelBytes == part[..j]
      {
        labelBytes := labelBytes + [part[j]];
      }
      question := question + labelBytes;
      assert labels[..i + 1] == labels[..i] + [part];
      EncodeLabelsSnoc(labels[..i], part);
    }
    assert labels[..|labels|] == labels;
    question := question + [0];
    question := question + [0, Code(queryType)];
    question := question + [0, 1];
    query := header + question;
  }
}
