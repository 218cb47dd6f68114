/** The name reader `parseName` of DnsClient.java: length-prefixed labels, and compression
    pointers (RFC 1035 section 4.1.4) followed by a recursive call at the pointer's target.

    The source has no cycle guard; the Java stack ends a pointer chain that is too long (or
    cyclic) with a StackOverflowError. The model makes that bound explicit: `depth` is the
    number of nested pointer hops the stack still allows, and a pointer met at depth 0 throws
    StackOverflow. */
module NameReader {
  import opened JavaBytes

  /** `(b & 0b11000000) == 192`: the two top bits are set. */
  predicate IsPointer(b: JByte)
  {
    U8(b) >= 192
  }

  /** `((hi & 0b00111111) << 8) + (lo & 0b11111111)`: the 14-bit offset of a pointer. */
  function PointerOffset(hi: JByte, lo: JByte): (target: int)
    ensures 0 <= target < 16384
  {
    (U8(hi) % 64) * 256 + U8(lo)
  }

  /** `((hi & 0b00111111) << 8) + lo`: the same sum with the low byte left signed, as
      `parsePointerOrName` and main.java compute it; it falls 256 short of the offset when
      the low byte is 0x80 or more. */
  function SignedPointerOffset(hi: JByte, lo: JByte): (pointer: int)
    ensures pointer == PointerOffset(hi, lo) - (if lo < 0 then 256 else 0)
  {
    (U8(hi) % 64) * 256 + lo
  }

  /** `Pair<String, Integer>` returned by `parseName`: the dotted name and the cursor. */
  datatype NameAt = NameAt(name: Bytes, next: int)

  /** The state of `parseName`'s loop when it meets the zero byte at `at`. */
  datatype LabelRun = LabelRun(labels: seq<Bytes>, at: int)

  /** What is left of the buffer from `i` on; it shrinks with every label the loop reads. */
  function Remaining(buf: Bytes, i: int): nat
  {
    if 0 <= i < |buf| then |buf| - i else 0
  }

  /** `parseName(buf, start)`: the labels joined with dots, and the index of the zero byte
      that stopped the loop, plus one unless the name started with a pointer. */
  function ReadName(buf: Bytes, start: int, depth: nat): Outcome<NameAt>
    decreases depth, Remaining(buf, start), 2
  {
    var first :- Read(buf, start);
    var run :- NameLoop(buf, start, [], depth);
    Done(NameAt(Join(run.labels), if IsPointer(first) then run.at else run.at + 1))
  }

  /** The `while (byteArray[i] != 0x0)` loop of `parseName` from cursor `i`, having collected
      `labels`: the zero byte ends it, and any other byte is a pointer or a label length.
      The two kinds of step are functions of their own, so that unfolding the loop once
      stops short of the name at a pointer's target. */
  function NameLoop(buf: Bytes, i: int, labels: seq<Bytes>, depth: nat): Outcome<LabelRun>
    decreases depth, Remaining(buf, i), 1
  {
    var b :- Read(buf, i);
    if b == 0 then Done(LabelRun(labels, i))
    else if IsPointer(b) then FollowPointer(buf, i, b, labels, depth)
    else TakeLabel(buf, i, b, labels, depth)
  }

  /** A pointer `b` at `i` adds the whole name at its target as one component and moves the
      cursor past its two bytes. */
  function FollowPointer(buf: Bytes, i: int, b: JByte, labels: seq<Bytes>, depth: nat): Outcome<LabelRun>
    requires 0 <= i < |buf| && buf[i] == b
    decreases depth, Remaining(buf, i), 0
  {
    var lo :- Read(buf, i + 1);
    if depth == 0 then Threw(StackOverflow)
    else
      var target :- ReadName(buf, PointerOffset(b, lo), depth - 1);
      NameLoop(buf, i + 2, labels + [target.name], depth)
  }

  /** A length byte `b` at `i` adds the `b` bytes after it as a label; a negative length
      makes `Arrays.copyOfRange` throw. */
  function TakeLabel(buf: Bytes, i: int, b: JByte, labels: seq<Bytes>, depth: nat): Outcome<LabelRun>
    requires 0 <= i < |buf| && buf[i] == b && b != 0
    decreases depth, Remaining(buf, i), 0
  {
    var part :- CopyOfRange(buf, i + 1, i + 1 + b);
    NameLoop(buf, i + 1 + b, labels + [part], depth)
  }

  /** `parseName`, as the source runs it: a cursor loop that recurses on pointers. */
  method ParseName(buf: Bytes, start: int, depth: nat) returns (r: Outcome<NameAt>)
    ensures r == ReadName(buf, start, depth)
    decreases depth
  {
    var first :- Read(buf, start);
    var requestIsPointer := IsPointer(first);
    var labels: seq<Bytes> := [];
    var i := start;
    while true
      invariant NameLoop(buf, i, labels, depth) == NameLoop(buf, start, [], depth)
      decreases Remaining(buf, i)
    {
      var b :- Read(buf, i);
      if b == 0 {
        break;
      }
      var labelLength := b;
      if IsPointer(b) {
        i := i + 1;
        var lo :- Read(buf, i);
        var pointer := PointerOffset(b, lo);
        if depth == 0 {
          return Threw(StackOverflow);
        }
        var nameIndexPair :- ParseName(buf, pointer, depth - 1);
        labels := labels + [nameIndexPair.name];
        i := i + 1;
        continue;
      }
      i := i + 1;
      var labelBytes :- CopyOfRange(buf, i, i + labelLength);
      labels := labels + [labelBytes];
      i := i + labelLength;
    }
    if !requestIsPointer {
      i := i + 1;
    }
    r := Done(NameAt(Join(labels), i));
  }

  /** A pointer to itself never resolves: every stack depth ends in StackOverflow. */
  lemma {:induction false} SelfPointerOverflows(buf: Bytes, p: int, depth: nat)
    requires 0 <= p && p + 1 < |buf|
    requires IsPointer(buf[p]) && PointerOffset(buf[p], buf[p + 1]) == p
    ensures ReadName(buf, p, depth) == Threw(StackOverflow)
  {
    assert NameLoop(buf, p, [], depth) == FollowPointer(buf, p, buf[p], [], depth);
    if depth > 0 {
      SelfPointerOverflows(buf, p, depth - 1);
    }
  }

  /** Two pointers aimed at each other never resolve either. */
  lemma {:induction false} PointerPairOverflows(buf: Bytes, p: int, q: int, depth: nat)
    requires 0 <= p && p + 1 < |buf| && 0 <= q && q + 1 < |buf|
    requires IsPointer(buf[p]) && PointerOffset(buf[p], buf[p + 1]) == q
    requires IsPointer(buf[q]) && PointerOffset(buf[q], buf[q + 1]) == p
    ensures ReadName(buf, p, depth) == Threw(StackOverflow)
    decreases depth
  {
    assert NameLoop(buf, p, [], depth) == FollowPointer(buf, p, buf[p], [], depth);
    if depth > 0 {
      PointerPairOverflows(buf, q, p, depth - 1);
    }
  }
}
