/**
 The byte-order primitives the static ARP table relies on: big-endian reading and
 writing of a 32-bit unsigned integer (Go's encoding/binary BigEndian.Uint32 and
 PutUint32) and the byte swap used to form table keys (SwapBytesUint32 of the
 packet package, modelled as the reversal of the four bytes of its argument).
 */
module ByteOrder {

  type Byte = b: int | 0 <= b < 256

  /** Go's uint32, without wrap-around: every arithmetic step is written out. */
  type U32 = x: int | 0 <= x < 0x1_0000_0000

  const TWO_32: int := 0x1_0000_0000
  const MAX_U32: U32 := 0xFFFF_FFFF

  /** Byte k of x, counting from the least significant byte. */
  function ByteAt(x: nat, k: nat): (b: Byte)
  {
    if k == 0 then x % 256 else ByteAt(x / 256, k - 1)
  }

  /** The four bytes of a 32-bit value, by repeated division. */
  lemma ByteAtValues(x: U32)
    ensures ByteAt(x, 0) == x % 256
    ensures ByteAt(x, 1) == (x / 256) % 256
    ensures ByteAt(x, 2) == (x / 256 / 256) % 256
    ensures ByteAt(x, 3) == x / 256 / 256 / 256
  {
    var q1 := x / 256;
    var q2 := q1 / 256;
    var q3 := q2 / 256;
    assert q3 / 256 == 0;
    assert ByteAt(x, 3) == ByteAt(q1, 2) == ByteAt(q2, 1) == ByteAt(q3, 0) == q3;
    assert ByteAt(x, 2) == ByteAt(q1, 1) == ByteAt(q2, 0);
    assert ByteAt(x, 1) == ByteAt(q1, 0);
  }

  /** Bytes 0..3 of a value assembled most significant byte first. */
  lemma BytesOfAssembled(c3: Byte, c2: Byte, c1: Byte, c0: Byte)
    ensures var v := ((c3 as int * 256 + c2) * 256 + c1) * 256 + c0;
            ByteAt(v, 0) == c0 && ByteAt(v, 1) == c1 && ByteAt(v, 2) == c2 && ByteAt(v, 3) == c3
  {
    var w2 := c3 as int * 256 + c2;
    var w1 := w2 * 256 + c1;
    var v := w1 * 256 + c0;
    assert v / 256 == w1 && v % 256 == c0;
    assert w1 / 256 == w2 && w1 % 256 == c1;
    assert w2 / 256 == c3 && w2 % 256 == c2;
    assert c3 / 256 == 0 && c3 % 256 == c3;
    assert ByteAt(v, 3) == ByteAt(w1, 2) == ByteAt(w2, 1) == ByteAt(c3, 0);
    assert ByteAt(v, 2) == ByteAt(w1, 1) == ByteAt(w2, 0);
    assert ByteAt(v, 1) == ByteAt(w1, 0);
  }

  /** A 32-bit value is its four bytes assembled most significant first. */
  lemma AssembledBytes(x: U32)
    ensures x == ((ByteAt(x, 3) as int * 256 + ByteAt(x, 2)) * 256 + ByteAt(x, 1)) * 256 + ByteAt(x, 0)
  {
    ByteAtValues(x);
  }

  /** BigEndian.Uint32: the first four bytes, most significant first (Go panics on fewer). */
  function Uint32BE(b: seq<Byte>): (x: U32)
    requires |b| >= 4
    ensures ByteAt(x, 3) == b[0] && ByteAt(x, 2) == b[1] && ByteAt(x, 1) == b[2] && ByteAt(x, 0) == b[3]
  {
    BytesOfAssembled(b[0], b[1], b[2], b[3]);
    ((b[0] as int * 256 + b[1]) * 256 + b[2]) * 256 + b[3]
  }

  /** BigEndian.PutUint32 into a fresh four-byte buffer: reading it back gives x. */
  function PutUint32BE(x: U32): (b: seq<Byte>)
    ensures |b| == 4
    ensures Uint32BE(b) == x
  {
    AssembledBytes(x);
    [ByteAt(x, 3), ByteAt(x, 2), ByteAt(x, 1), ByteAt(x, 0)]
  }

  /** Writing back the integer read from four bytes gives those bytes. */
  lemma PutUint32BEOfUint32BE(b: seq<Byte>)
    requires |b| >= 4
    ensures PutUint32BE(Uint32BE(b)) == b[..4]
  {
  }

  /** Big-endian reading is injective on four-byte buffers. */
  lemma Uint32BEInjective(a: seq<Byte>, b: seq<Byte>)
    requires |a| == 4 && |b| == 4
    requires Uint32BE(a) == Uint32BE(b)
    ensures a == b
  {
    PutUint32BEOfUint32BE(a);
    PutUint32BEOfUint32BE(b);
    assert a[..4] == a && b[..4] == b;
  }

  function Reverse4(b: seq<Byte>): (r: seq<Byte>)
    requires |b| == 4
    ensures |r| == 4 && forall k :: 0 <= k < 4 ==> r[k] == b[3 - k]
  {
    [b[3], b[2], b[1], b[0]]
  }

  /**
   Takes the n low-order bytes of x, lowest first, and shifts each into acc from the
   low end, so that they come out in reverse order.
   */
  function ReverseBytes(x: nat, n: nat, acc: nat): (r: nat)
  {
    if n == 0 then acc else ReverseBytes(x / 256, n - 1, acc * 256 + x % 256)
  }

  /** The four steps of ReverseBytes on a 32-bit value written out. */
  lemma ReverseBytesValue(x: U32)
    ensures ReverseBytes(x, 4, 0) ==
            ((ByteAt(x, 0) as int * 256 + ByteAt(x, 1)) * 256 + ByteAt(x, 2)) * 256 + ByteAt(x, 3)
  {
    var q1 := x / 256;
    var q2 := q1 / 256;
    var q3 := q2 / 256;
    ByteAtValues(x);
    calc {
      ReverseBytes(x, 4, 0);
      ReverseBytes(q1, 3, x % 256);
      ReverseBytes(q2, 2, (x % 256) * 256 + q1 % 256);
      ReverseBytes(q3, 1, ((x % 256) * 256 + q1 % 256) * 256 + q2 % 256);
      ReverseBytes(0, 0, (((x % 256) * 256 + q1 % 256) * 256 + q2 % 256) * 256 + q3);
    }
  }

  /**
   SwapBytesUint32: the four bytes of x in reverse order. Its arithmetic sits behind
   the recursive ReverseBytes so that the table's proofs see only the lemmas below.
   */
  function SwapBytes(x: U32): (y: U32)
  {
    ReverseBytesValue(x);
    ReverseBytes(x, 4, 0)
  }

  /** SwapBytes reverses the big-endian bytes of its argument. */
  lemma SwapBytesReverses(x: U32)
    ensures SwapBytes(x) == Uint32BE(Reverse4(PutUint32BE(x)))
  {
    ReverseBytesValue(x);
    ByteAtValues(x);
  }

  /** Swapping twice gives the value back, so distinct addresses get distinct keys. */
  lemma SwapBytesInvolution(x: U32)
    ensures SwapBytes(SwapBytes(x)) == x
  {
    var c0, c1, c2, c3 := ByteAt(x, 0), ByteAt(x, 1), ByteAt(x, 2), ByteAt(x, 3);
    ReverseBytesValue(x);
    var y := SwapBytes(x);
    assert y == ((c0 as int * 256 + c1) * 256 + c2) * 256 + c3;
    BytesOfAssembled(c0, c1, c2, c3);
    assert ByteAt(y, 0) == c3 && ByteAt(y, 1) == c2 && ByteAt(y, 2) == c1 && ByteAt(y, 3) == c0;
    ReverseBytesValue(y);
    assert SwapBytes(y) == ((c3 as int * 256 + c2) * 256 + c1) * 256 + c0;
    AssembledBytes(x);
  }

  lemma SwapBytesInjective(x: U32, y: U32)
    ensures SwapBytes(x) == SwapBytes(y) <==> x == y
  {
    SwapBytesInvolution(x);
    SwapBytesInvolution(y);
  }
}
