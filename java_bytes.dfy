/** Java's signed byte and the few pieces of the Java library the codec relies on:
    array reads that may throw, `Arrays.copyOfRange`, `Optional.get`, narrowing casts,
    `String.split("\\.")` and `String.join(".", ...)`. Strings are modelled by their
    bytes, which is exact for ASCII text. */
module JavaBytes {

  /** A Java `byte`: a signed 8-bit value. */
  type JByte = b: int | -128 <= b < 128

  /** A Java `byte[]`, and the bytes of an ASCII `String`. */
  type Bytes = seq<JByte>

  /** The exceptions the codec can raise. None of them is caught. */
  datatype JavaException =
    | ArrayIndexOutOfBounds   // a byte[] index outside the array
    | IllegalArgument         // Arrays.copyOfRange with from > to
    | NoSuchElement           // Optional.get() on an empty Optional
    | StringIndexOutOfBounds  // String.substring with a bad begin index
    | StackOverflow           // recursion deeper than the JVM stack allows

  /** The result of a Java computation: a value, or the exception it threw. */
  datatype Outcome<+T> = Done(value: T) | Threw(exception: JavaException) {
    predicate IsFailure() { Threw? }

    function PropagateFailure<U>(): Outcome<U>
      requires Threw?
    {
      Threw(exception)
    }

    function Extract(): T
      requires Done?
    {
      value
    }
  }

  /** java.util.Optional. */
  datatype Option<+T> = None | Some(value: T)

  /** `Optional.get()`. */
  function Get<T>(o: Option<T>): Outcome<T>
  {
    match o
    case Some(v) => Done(v)
    case None => Threw(NoSuchElement)
  }

  /** `buf[i]`. */
  function Read(buf: Bytes, i: int): Outcome<JByte>
  {
    if 0 <= i < |buf| then Done(buf[i]) else Threw(ArrayIndexOutOfBounds)
  }

  /** `b & 0xFF`: the byte read as unsigned. */
  function U8(b: JByte): (u: int)
    ensures 0 <= u < 256 && u % 256 == (b as int) % 256
  {
    if b < 0 then b + 256 else b
  }

  /** `(byte) x`: keeps the low eight bits, as two's complement. */
  function ToByte(x: int): (b: JByte)
    ensures (b as int) % 256 == x % 256
  {
    (x + 128) % 256 - 128
  }

  /** Java `int` arithmetic: the exact value wrapped into 32-bit two's complement. */
  function ToInt32(x: int): (r: int)
    ensures -0x8000_0000 <= r < 0x8000_0000 && r % 0x1_0000_0000 == x % 0x1_0000_0000
  {
    (x + 0x8000_0000) % 0x1_0000_0000 - 0x8000_0000
  }

  function Zeros(n: nat): (z: Bytes)
    ensures |z| == n && forall k :: 0 <= k < n ==> z[k] == 0
  {
    seq(n, _ => 0)
  }

  function Min(a: int, b: int): int { if a <= b then a else b }

  /** `Arrays.copyOfRange(buf, from, to)`: throws when the range is reversed or starts past
      the end; a range running past the end is padded with zero bytes. */
  function CopyOfRange(buf: Bytes, from: int, to: int): (r: Outcome<Bytes>)
    ensures r.Done? <==> from <= to && 0 <= from <= |buf|
    ensures r.Threw? ==> r.exception == (if from > to then IllegalArgument else ArrayIndexOutOfBounds)
    ensures r.Done? ==> |r.value| == to - from
    ensures r.Done? ==> forall k :: 0 <= k < to - from ==>
                          r.value[k] == if from + k < |buf| then buf[from + k] else 0
  {
    if from > to then Threw(IllegalArgument)
    else if from < 0 || from > |buf| then Threw(ArrayIndexOutOfBounds)
    else Done(buf[from..Min(to, |buf|)] + Zeros(to - Min(to, |buf|)))
  }

  /** The bytes of an IPv4 address read as unsigned octets (`Byte.toUnsignedInt`). */
  function Octets(bytes: Bytes): (r: seq<int>)
    ensures |r| == |bytes|
    ensures forall k :: 0 <= k < |r| ==> 0 <= r[k] < 256 && r[k] % 256 == (bytes[k] as int) % 256
  {
    seq(|bytes|, k requires 0 <= k < |bytes| => U8(bytes[k]))
  }

  /** The loop that turns the RDATA of an A record into its octets, one per byte. */
  method UnsignedOctets(ipBytes: Bytes) returns (ipParts: seq<int>)
    ensures ipParts == Octets(ipBytes)
  {
    ipParts := [];
    for j := 0 to |ipBytes|
      invariant ipParts == Octets(ipBytes[..j])
    {
      assert ipBytes[..j + 1] == ipBytes[..j] + [ipBytes[j]];
      ipParts := ipParts + [U8(ipBytes[j])];
    }
    assert ipBytes[..|ipBytes|] == ipBytes;
  }

  /** The character '.'. */
  const Dot: JByte := 46

  /** `String.join(".", parts)`. */
  function Join(parts: seq<Bytes>): Bytes
  {
    if |parts| == 0 then []
    else if |parts| == 1 then parts[0]
    else parts[0] + [Dot] + Join(parts[1..])
  }

  /** The pieces of `s` between dots, empty pieces included. */
  function Pieces(s: Bytes): (ps: seq<Bytes>)
    ensures |ps| >= 1
  {
    if |s| == 0 then [[]]
    else
      var rest := Pieces(s[1..]);
      if s[0] == Dot then [[]] + rest else [[s[0]] + rest[0]] + rest[1..]
  }

  function DropTrailingEmpty(ps: seq<Bytes>): seq<Bytes>
  {
    if |ps| > 0 && ps[|ps| - 1] == [] then DropTrailingEmpty(ps[..|ps| - 1]) else ps
  }

  /** `s.split("\\.")`: a string without a dot is its own single piece (even when empty);
      otherwise the pieces between dots with the trailing empty ones removed. */
  function Split(s: Bytes): seq<Bytes>
  {
    if Dot !in s then [s] else DropTrailingEmpty(Pieces(s))
  }

  lemma {:induction false} PiecesOfDotFree(p: Bytes)
    requires Dot !in p
    ensures Pieces(p) == [p]
  {
    if |p| > 0 {
      PiecesOfDotFree(p[1..]);
      assert [p[0]] + p[1..] == p;
    }
  }

  lemma {:induction false} PiecesAfterDot(p: Bytes, t: Bytes)
    requires Dot !in p
    ensures Pieces(p + [Dot] + t) == [p] + Pieces(t)
  {
    if |p| == 0 {
      assert ([] + [Dot] + t)[1..] == t;
    } else {
      assert (p + [Dot] + t)[1..] == p[1..] + [Dot] + t;
      PiecesAfterDot(p[1..], t);
      assert [p[0]] + p[1..] == p;
    }
  }

  lemma {:induction false} PiecesOfJoin(parts: seq<Bytes>)
    requires |parts| >= 1
    requires forall k :: 0 <= k < |parts| ==> Dot !in parts[k]
    ensures Pieces(Join(parts)) == parts
  {
    if |parts| == 1 {
      PiecesOfDotFree(parts[0]);
    } else {
      PiecesOfJoin(parts[1..]);
      PiecesAfterDot(parts[0], Join(parts[1..]));
      assert [parts[0]] + parts[1..] == parts;
    }
  }

  /** Splitting a dot-joined list of non-empty, dot-free labels gives the labels back. */
  lemma SplitJoin(labels: seq<Bytes>)
    requires |labels| >= 1
    requires forall k :: 0 <= k < |labels| ==> |labels[k]| >= 1 && Dot !in labels[k]
    ensures Split(Join(labels)) == labels
  {
    if |labels| == 1 {
    } else {
      assert Join(labels)[|labels[0]|] == Dot;
      PiecesOfJoin(labels);
    }
  }
}
