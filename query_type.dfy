/** The `QueryType` enumeration (identical in DnsClient.java and main.java): the four
    record types the client knows, each with its one-byte TYPE code (RFC 1035 section 3.2.2). */
module QueryTypes {
  import opened JavaBytes

  datatype QueryType = A | NS | CNAME | MX

  /** `getCode()`. */
  function Code(q: QueryType): JByte
  {
    match q
    case A => 1
    case NS => 2
    case CNAME => 5
    case MX => 15
  }

  /** `values()`, in declaration order. */
  const Values: seq<QueryType> := [A, NS, CNAME, MX]

  /** `stream(qs).filter(q -> q.code == code).findFirst()`. */
  function FindFirst(qs: seq<QueryType>, code: JByte): (r: Option<QueryType>)
    ensures r.Some? ==> r.value in qs && Code(r.value) == code
    ensures r.None? ==> forall k :: 0 <= k < |qs| ==> Code(qs[k]) != code
  {
    if |qs| == 0 then None
    else if Code(qs[0]) == code then Some(qs[0])
    else FindFirst(qs[1..], code)
  }

  /** `valueOf(byte code)`: the type whose code is `code`, or empty. */
  function ValueOf(code: JByte): (r: Option<QueryType>)
    ensures r.Some? <==> code in {1, 2, 5, 15}
    ensures r.Some? ==> Code(r.value) == code
  {
    FindFirst(Values, code)
  }

  /** Looking up a type's own code finds that type. */
  lemma ValueOfCode(q: QueryType)
    ensures ValueOf(Code(q)) == Some(q)
  {
  }
}
