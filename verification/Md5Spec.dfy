/** The MD5 message digest of RFC 1321, on whole messages. */
module Md5Spec {
  import opened Common

  // ------------------------------------------------------------------
  // Words and bytes

  datatype Byte = Byte(v: bv8)
  datatype Word = Word(v: bv32)

  function Low8(v: bv32): Byte { Byte((v & 0xff) as bv8) }
  function Byte0(w: Word): Byte { Low8(w.v) }
  function Byte1(w: Word): Byte { Low8(w.v >> 8) }
  function Byte2(w: Word): Byte { Low8(w.v >> 16) }
  function Byte3(w: Word): Byte { Low8(w.v >> 24) }

  function Joined(p: Byte, q: Byte, r: Byte, s: Byte): Word {
    Word(p.v as bv32 | (q.v as bv32 << 8) | (r.v as bv32 << 16) | (s.v as bv32 << 24))
  }

  lemma BitsJoin(v: bv32)
    ensures Joined(Byte0(Word(v)), Byte1(Word(v)), Byte2(Word(v)), Byte3(Word(v))) == Word(v)
  {
  }

  /** A word as four bytes, low-order first, and back. */
  function WordBytes(w: Word): (b: seq<Byte>)
    ensures |b| == 4
  {
    [Byte0(w), Byte1(w), Byte2(w), Byte3(w)]
  }

  function WordAt(b: seq<Byte>, j: nat): Word
    requires j + 4 <= |b|
  {
    Joined(b[j], b[j + 1], b[j + 2], b[j + 3])
  }

  lemma WordRoundTrip(w: Word)
    ensures WordAt(WordBytes(w), 0) == w
  {
    BitsJoin(w.v);
    hide Joined, Byte0, Byte1, Byte2, Byte3;
  }

  function Bytes(ws: seq<Word>): (b: seq<Byte>)
    ensures |b| == 4 * |ws|
  {
    if ws == [] then [] else Bytes(ws[..|ws| - 1]) + WordBytes(ws[|ws| - 1])
  }

  function Words(b: seq<Byte>): (ws: seq<Word>)
    requires |b| % 4 == 0
    ensures |ws| == |b| / 4
  {
    seq(|b| / 4, i requires 0 <= i < |b| / 4 => WordAt(b, 4 * i))
  }

  lemma {:induction false} BytesAt(ws: seq<Word>, i: nat)
    requires i < |ws|
    ensures Bytes(ws)[4 * i..4 * i + 4] == WordBytes(ws[i])
  {
    var init := ws[..|ws| - 1];
    if i < |init| {
      BytesAt(init, i);
      assert Bytes(ws)[4 * i..4 * i + 4] == Bytes(init)[4 * i..4 * i + 4];
    }
  }

  /** Decoding undoes encoding. */
  lemma DecodeEncode(ws: seq<Word>)
    ensures Words(Bytes(ws)) == ws
  {
    hide WordBytes, WordAt;
    forall i | 0 <= i < |ws| ensures Words(Bytes(ws))[i] == ws[i] {
      BytesAt(ws, i);
      FourBytes(Bytes(ws), 4 * i);
      WordRoundTrip(ws[i]);
    }
  }

  lemma FourBytes(b: seq<Byte>, j: nat)
    requires j + 4 <= |b|
    ensures WordAt(b, j) == WordAt(b[j..j + 4], 0)
  {
  }

  // ------------------------------------------------------------------
  // The block transformation

  datatype State = State(a: Word, b: Word, c: Word, d: Word)

  const INIT: State := State(Word(0x67452301), Word(0xEFCDAB89), Word(0x98BADCFE), Word(0x10325476))

  function Add(x: Word, y: Word): Word { Word(x.v + y.v) }

  function F(x: bv32, y: bv32, z: bv32): bv32 { (x & y) | (!x & z) }
  function G(x: bv32, y: bv32, z: bv32): bv32 { (x & z) | (y & !z) }
  function H(x: bv32, y: bv32, z: bv32): bv32 { x ^ y ^ z }
  function I(x: bv32, y: bv32, z: bv32): bv32 { y ^ (x | !z) }

  /** F chooses y where x is set and z elsewhere. */
  lemma ChoiceF(x: bv32, y: bv32, z: bv32)
    ensures F(x, y, z) & x == y & x && F(x, y, z) & !x == z & !x
  {
  }

  /** G chooses x where z is set and y elsewhere. */
  lemma ChoiceG(x: bv32, y: bv32, z: bv32)
    ensures G(x, y, z) & z == x & z && G(x, y, z) & !z == y & !z
  {
  }

  /** H is the parity of the three. */
  lemma ParityH(x: bv32, y: bv32, z: bv32)
    ensures H(x, y, z) & z == !(x ^ y) & z && H(x, y, z) & !z == (x ^ y) & !z
  {
  }

  /** I is the parity of x and y where z is set and the complement of y elsewhere. */
  lemma TableI(x: bv32, y: bv32, z: bv32)
    ensures I(x, y, z) & z == (x ^ y) & z && I(x, y, z) & !z == !y & !z
  {
  }

  function Rot(v: bv32, n: bv6): bv32
    requires 0 < n < 32
  {
    (v << n) | (v >> (32 - n))
  }

  function Rotate(x: Word, n: bv6): Word
    requires 0 < n < 32
  {
    Word(Rot(x.v, n))
  }

  /** Rotation to the left: the n low-order bits are the n high-order ones of the argument. */
  lemma RotatedLow(v: bv32, n: bv6)
    requires 0 < n < 32
    ensures Rot(v, n) & ((1 << n) - 1) == v >> (32 - n)
  {
  }

  /** The others are its low-order ones, moved up. */
  lemma RotatedHigh(v: bv32, n: bv6)
    requires 0 < n < 32
    ensures Rot(v, n) >> n == (v << n) >> n
  {
  }

  /** Message word, left shift and additive constant of one operation. */
  datatype Op = Op(k: nat, s: bv6, t: bv32)

  const ROUND1: seq<Op> := [
    Op(0, 7, 0xd76aa478), Op(1, 12, 0xe8c7b756), Op(2, 17, 0x242070db), Op(3, 22, 0xc1bdceee),
    Op(4, 7, 0xf57c0faf), Op(5, 12, 0x4787c62a), Op(6, 17, 0xa8304613), Op(7, 22, 0xfd469501),
    Op(8, 7, 0x698098d8), Op(9, 12, 0x8b44f7af), Op(10, 17, 0xffff5bb1), Op(11, 22, 0x895cd7be),
    Op(12, 7, 0x6b901122), Op(13, 12, 0xfd987193), Op(14, 17, 0xa679438e), Op(15, 22, 0x49b40821)]

  const ROUND2: seq<Op> := [
    Op(1, 5, 0xf61e2562), Op(6, 9, 0xc040b340), Op(11, 14, 0x265e5a51), Op(0, 20, 0xe9b6c7aa),
    Op(5, 5, 0xd62f105d), Op(10, 9, 0x2441453), Op(15, 14, 0xd8a1e681), Op(4, 20, 0xe7d3fbc8),
    Op(9, 5, 0x21e1cde6), Op(14, 9, 0xc33707d6), Op(3, 14, 0xf4d50d87), Op(8, 20, 0x455a14ed),
    Op(13, 5, 0xa9e3e905), Op(2, 9, 0xfcefa3f8), Op(7, 14, 0x676f02d9), Op(12, 20, 0x8d2a4c8a)]

  const ROUND3: seq<Op> := [
    Op(5, 4, 0xfffa3942), Op(8, 11, 0x8771f681), Op(11, 16, 0x6d9d6122), Op(14, 23, 0xfde5380c),
    Op(1, 4, 0xa4beea44), Op(4, 11, 0x4bdecfa9), Op(7, 16, 0xf6bb4b60), Op(10, 23, 0xbebfbc70),
    Op(13, 4, 0x289b7ec6), Op(0, 11, 0xeaa127fa), Op(3, 16, 0xd4ef3085), Op(6, 23, 0x4881d05),
    Op(9, 4, 0xd9d4d039), Op(12, 11, 0xe6db99e5), Op(15, 16, 0x1fa27cf8), Op(2, 23, 0xc4ac5665)]

  const ROUND4: seq<Op> := [
    Op(0, 6, 0xf4292244), Op(7, 10, 0x432aff97), Op(14, 15, 0xab9423a7), Op(5, 21, 0xfc93a039),
    Op(12, 6, 0x655b59c3), Op(3, 10, 0x8f0ccc92), Op(10, 15, 0xffeff47d), Op(1, 21, 0x85845dd1),
    Op(8, 6, 0x6fa87e4f), Op(15, 10, 0xfe2ce6e0), Op(6, 15, 0xa3014314), Op(13, 21, 0x4e0811a1),
    Op(4, 6, 0xf7537e82), Op(11, 10, 0xbd3af235), Op(2, 15, 0x2ad7d2bb), Op(9, 21, 0xeb86d391)]

  /** The auxiliary function of round `r`. */
  function Aux(r: nat, x: Word, y: Word, z: Word): Word {
    Word(if r == 0 then F(x.v, y.v, z.v) else if r == 1 then G(x.v, y.v, z.v)
         else if r == 2 then H(x.v, y.v, z.v) else I(x.v, y.v, z.v))
  }

  /** Section 3.4: b + ((a + Aux(b, c, d) + x + t) <<< s), with the sums as the macros group them. */
  function Line(r: nat, a: Word, b: Word, c: Word, d: Word, x: Word, s: bv6, t: Word): Word
    requires 0 < s < 32
  {
    Add(Rotate(Add(a, Add(Add(Aux(r, b, c, d), x), t)), s), b)
  }

  /** One operation: the first register is rewritten, and the registers move one place round. */
  function Operation(r: nat, s: State, op: Op, x: seq<Word>): State
    requires op.k < |x| && 0 < op.s < 32
  {
    State(s.d, Line(r, s.a, s.b, s.c, s.d, x[op.k], op.s, Word(op.t)), s.b, s.c)
  }

  predicate GoodOp(op: Op) {
    op.k < 16 && 0 < op.s < 32
  }

  /** Operation `j` of round `r`. */
  function OpAt(r: nat, j: nat): Op
    requires r < 4 && j < 16
  {
    if r == 0 then ROUND1[j] else if r == 1 then ROUND2[j] else if r == 2 then ROUND3[j] else ROUND4[j]
  }

  lemma Round1(j: nat)
    requires j < 16
    ensures GoodOp(ROUND1[j]) && ROUND1[j].k == j && ROUND1[j].s == [7, 12, 17, 22][j % 4]
  {
  }

  lemma Round2(j: nat)
    requires j < 16
    ensures GoodOp(ROUND2[j]) && ROUND2[j].k == (5 * j + 1) % 16 && ROUND2[j].s == [5, 9, 14, 20][j % 4]
  {
  }

  lemma Round3(j: nat)
    requires j < 16
    ensures GoodOp(ROUND3[j]) && ROUND3[j].k == (3 * j + 5) % 16 && ROUND3[j].s == [4, 11, 16, 23][j % 4]
  {
  }

  lemma Round4(j: nat)
    requires j < 16
    ensures GoodOp(ROUND4[j]) && ROUND4[j].k == 7 * j % 16 && ROUND4[j].s == [6, 10, 15, 21][j % 4]
  {
  }

  /** The word order and the shifts of section 3.4 of RFC 1321, round by round. */
  lemma Schedule(r: nat, j: nat)
    requires r < 4 && j < 16
    ensures GoodOp(OpAt(r, j))
    ensures OpAt(r, j).k == (if r == 0 then j else if r == 1 then 5 * j + 1 else if r == 2 then 3 * j + 5 else 7 * j) % 16
    ensures OpAt(r, j).s == (if r == 0 then [7, 12, 17, 22] else if r == 1 then [5, 9, 14, 20]
                             else if r == 2 then [4, 11, 16, 23] else [6, 10, 15, 21])[j % 4]
  {
    if r == 0 { Round1(j); } else if r == 1 { Round2(j); } else if r == 2 { Round3(j); } else { Round4(j); }
  }

  /** The first `n` operations on the message words `x`. */
  function Operations(s: State, x: seq<Word>, n: nat): State
    requires |x| == 16 && n <= 64
  {
    if n == 0 then s
    else
      var r, j := (n - 1) / 16, (n - 1) % 16;
      Schedule(r, j);
      Operation(r, Operations(s, x, n - 1), OpAt(r, j), x)
  }

  /** MD5Transform */
  function Transform(s: State, block: seq<Byte>): State
    requires |block| == 64
  {
    var t := Operations(s, Words(block), 64);
    State(Add(s.a, t.a), Add(s.b, t.b), Add(s.c, t.c), Add(s.d, t.d))
  }

  // ------------------------------------------------------------------
  // The digest of a whole message

  function Absorb(m: seq<Byte>): State
    requires |m| % 64 == 0
  {
    if m == [] then INIT else Transform(Absorb(m[..|m| - 64]), m[|m| - 64..])
  }

  lemma AbsorbBlock(m: seq<Byte>, block: seq<Byte>)
    requires |m| % 64 == 0 && |block| == 64
    ensures Absorb(m + block) == Transform(Absorb(m), block)
  {
  }

  /** Section 3.1: between 1 and 64 bytes, to a length 8 bytes short of a multiple of 64. */
  function PadLength(n: nat): (p: nat)
    ensures 1 <= p <= 64 && (n + p) % 64 == 56
  {
    (119 - n % 64) % 64 + 1
  }

  function Padding(p: nat): (b: seq<Byte>)
    requires p >= 1
    ensures |b| == p
  {
    [Byte(0x80)] + seq(p - 1, _ => Byte(0))
  }

  function ToWord(x: u32): Word { Word(x as bv32) }

  /** Section 3.2: the bit length modulo 2^64, low-order word first. */
  function LengthBytes(n: nat): (b: seq<Byte>)
    ensures |b| == 8
  {
    var bits := 8 * n % 0x1_0000_0000_0000_0000;
    Bytes([ToWord(bits % 0x1_0000_0000), ToWord(bits / 0x1_0000_0000)])
  }

  function Padded(m: seq<Byte>): (b: seq<Byte>)
    ensures |b| % 64 == 0
  {
    var p := PadLength(|m|);
    assert (|m| + p + 8) % 64 == 0;
    m + Padding(p) + LengthBytes(|m|)
  }

  function StateBytes(s: State): seq<Byte> {
    Bytes([s.a, s.b, s.c, s.d])
  }

  function Digest(m: seq<Byte>): seq<Byte> {
    StateBytes(Absorb(Padded(m)))
  }

  /** The digest shows the whole chaining state: nothing is lost by writing it out as bytes. */
  lemma DigestShowsState(m: seq<Byte>, n: seq<Byte>)
    ensures |Digest(m)| == 16 && Words(Digest(m)) == [Absorb(Padded(m)).a, Absorb(Padded(m)).b,
                                                      Absorb(Padded(m)).c, Absorb(Padded(m)).d]
    ensures Digest(m) == Digest(n) <==> Absorb(Padded(m)) == Absorb(Padded(n))
  {
    hide Absorb, Padded, Bytes, Words;
    var s, t := Absorb(Padded(m)), Absorb(Padded(n));
    DecodeEncode([s.a, s.b, s.c, s.d]);
    DecodeEncode([t.a, t.b, t.c, t.d]);
    assert Digest(m) == Digest(n) ==> [s.a, s.b, s.c, s.d] == [t.a, t.b, t.c, t.d];
    assert [s.a, s.b, s.c, s.d] == [t.a, t.b, t.c, t.d] ==> s == t by {
      assert [s.a, s.b, s.c, s.d][0] == s.a && [s.a, s.b, s.c, s.d][1] == s.b;
      assert [s.a, s.b, s.c, s.d][2] == s.c && [s.a, s.b, s.c, s.d][3] == s.d;
    }
  }
}
