/** Cyclic redundancy checks: a shift register over an arbitrary polynomial, and the CRC-16 of YMODEM
    payloads. Registers and bytes are wrapped so that algebra on whole messages need not look at their
    bits; facts about bits are the lemmas named `Bits...`. */
module Crc {

  datatype Octet = Octet(v: bv8)
  datatype Reg = Reg(v: bv16)

  const ZERO8: Octet := Octet(0)
  const ZERO: Reg := Reg(0)

  // Addition without carry.
  function Sum8(a: Octet, b: Octet): Octet { Octet(a.v ^ b.v) }
  function Sum(a: Reg, b: Reg): Reg { Reg(a.v ^ b.v) }

  lemma SumSwap(a: Reg, b: Reg, u: Reg, v: Reg)
    ensures Sum(Sum(a, b), Sum(u, v)) == Sum(Sum(a, u), Sum(b, v))
  {
  }

  lemma SumRight(a: Reg, b: Reg, u: Reg)
    ensures Sum(Sum(a, u), b) == Sum(Sum(a, b), u)
  {
  }

  lemma SumSelf(a: Reg)
    ensures Sum(a, a) == ZERO && Sum(a, ZERO) == a
  {
  }

  lemma SumCommutes(a: Reg, b: Reg)
    ensures Sum(a, b) == Sum(b, a)
  {
  }

  lemma Cancel(a: Reg, b: Reg, u: Reg)
    requires Sum(a, u) == Sum(b, u)
    ensures a == b
  {
  }

  lemma Rearrange(a: Reg, u: Reg, b: Reg, v: Reg)
    requires Sum(a, u) == Sum(b, v)
    ensures Sum(a, b) == Sum(u, v)
  {
  }

  lemma SumZero8(x: Octet, y: Octet)
    ensures Sum8(x, y) == ZERO8 <==> x == y
  {
  }

  // ------------------------------------------------------------------
  // The shift register

  predicate Top(c: Reg) { c.v & 0x8000 != 0 }
  function Double(c: Reg): Reg { Reg(c.v << 1) }

  function Shift(p: Reg, c: Reg): Reg {
    if Top(c) then Sum(Double(c), p) else Double(c)
  }

  function Shifts(p: Reg, c: Reg, n: nat): Reg {
    if n == 0 then c else Shift(p, Shifts(p, c, n - 1))
  }

  /** The byte in the high half of the register. */
  function High(b: Octet): Reg {
    Reg((b.v as bv16) << 8)
  }

  /** Adding a byte and shifting it through. */
  function Feed(p: Reg, c: Reg, b: Octet): Reg {
    Shifts(p, Sum(c, High(b)), 8)
  }

  function Remainder(p: Reg, m: seq<Octet>): Reg {
    if m == [] then ZERO else Feed(p, Remainder(p, m[..|m| - 1]), m[|m| - 1])
  }

  /** The difference of two messages. */
  function Xor(m: seq<Octet>, n: seq<Octet>): (d: seq<Octet>)
    requires |m| == |n|
    ensures |d| == |m|
  {
    seq(|m|, i requires 0 <= i < |m| => Sum8(m[i], n[i]))
  }

  lemma BitsTop(a: bv16, b: bv16)
    ensures Top(Sum(Reg(a), Reg(b))) <==> Top(Reg(a)) != Top(Reg(b))
  {
  }

  lemma TopLinear(a: Reg, b: Reg)
    ensures Top(Sum(a, b)) <==> Top(a) != Top(b)
  {
    hide Top, Sum;
    BitsTop(a.v, b.v);
  }

  lemma DoubleLinear(a: Reg, b: Reg)
    ensures Double(Sum(a, b)) == Sum(Double(a), Double(b))
  {
  }

  lemma ShiftLinear(p: Reg, a: Reg, b: Reg)
    ensures Shift(p, Sum(a, b)) == Sum(Shift(p, a), Shift(p, b))
  {
    hide Sum, Top, Double;
    TopLinear(a, b);
    DoubleLinear(a, b);
    var x, y := Double(a), Double(b);
    SumSwap(x, y, p, p);
    SumSelf(p);
    SumSelf(Sum(x, y));
    SumRight(x, y, p);
    SumRight(y, x, p);
    SumCommutes(x, y);
    SumCommutes(x, Sum(y, p));
  }

  lemma {:induction false} ShiftsLinear(p: Reg, a: Reg, b: Reg, n: nat)
    ensures Shifts(p, Sum(a, b), n) == Sum(Shifts(p, a, n), Shifts(p, b, n))
  {
    hide Shift, Sum;
    if n > 0 {
      ShiftsLinear(p, a, b, n - 1);
      ShiftLinear(p, Shifts(p, a, n - 1), Shifts(p, b, n - 1));
    }
  }

  lemma {:induction false} ZeroShifts(p: Reg, n: nat)
    ensures Shifts(p, ZERO, n) == ZERO
  {
    if n > 0 {
      ZeroShifts(p, n - 1);
    }
  }

  lemma HighLinear(x: Octet, y: Octet)
    ensures High(Sum8(x, y)) == Sum(High(x), High(y))
  {
  }

  lemma HighInjective(x: Octet, y: Octet)
    requires High(x) == High(y)
    ensures x == y
  {
  }

  lemma FeedLinear(p: Reg, a: Reg, b: Reg, x: Octet, y: Octet)
    ensures Feed(p, Sum(a, b), Sum8(x, y)) == Sum(Feed(p, a, x), Feed(p, b, y))
  {
    hide Sum, Sum8, High, Shifts;
    HighLinear(x, y);
    SumSwap(a, b, High(x), High(y));
    ShiftsLinear(p, Sum(a, High(x)), Sum(b, High(y)), 8);
  }

  lemma RemainderSnoc(p: Reg, m: seq<Octet>, x: Octet)
    ensures Remainder(p, m + [x]) == Feed(p, Remainder(p, m), x)
  {
  }

  /** Whatever the polynomial, XORing two messages of equal length XORs their remainders. */
  lemma {:induction false} RemainderLinear(p: Reg, m: seq<Octet>, n: seq<Octet>)
    requires |m| == |n|
    ensures Remainder(p, Xor(m, n)) == Sum(Remainder(p, m), Remainder(p, n))
  {
    hide Feed, Sum8;
    if m != [] {
      hide Sum;
      var m', n' := m[..|m| - 1], n[..|n| - 1];
      RemainderLinear(p, m', n');
      assert Xor(m, n)[..|m| - 1] == Xor(m', n');
      FeedLinear(p, Remainder(p, m'), Remainder(p, n'), m[|m| - 1], n[|n| - 1]);
    }
  }

  // ------------------------------------------------------------------
  // CRC-16

  const CCITT: Reg := Reg(0x1021)

  function Crc16(m: seq<Octet>): Reg {
    Remainder(CCITT, m)
  }

  /** crc16 */
  method ComputeCrc16(data: seq<Octet>) returns (crc: Reg)
    ensures crc == Crc16(data)
  {
    hide Shift, Sum, High;
    crc := ZERO;
    for i := 0 to |data|
      invariant crc == Crc16(data[..i])
    {
      assert data[..i + 1][..i] == data[..i];
      crc := Sum(crc, High(data[i]));
      ghost var start := crc;
      for k := 0 to 8
        invariant crc == Shifts(CCITT, start, k)
      {
        crc := Shift(CCITT, crc);
      }
    }
    assert data[..|data|] == data;
  }

  /** The checksum is linear. */
  lemma Crc16Linear(m: seq<Octet>, n: seq<Octet>)
    requires |m| == |n|
    ensures Crc16(Xor(m, n)) == Sum(Crc16(m), Crc16(n))
  {
    hide Remainder, Sum, Xor;
    RemainderLinear(CCITT, m, n);
  }

  /** The inverse of one shift: the polynomial's constant term tells whether it was applied. */
  function Unshift(s: Reg): Reg {
    if s.v & 1 != 0 then Reg(((s.v ^ 0x1021) >> 1) | 0x8000) else Reg(s.v >> 1)
  }

  lemma BitsUnshift(c: bv16)
    ensures c & 0x8000 != 0 ==> ((c << 1) ^ 0x1021) & 1 != 0
    ensures c & 0x8000 == 0 ==> (c << 1) & 1 == 0
    ensures c & 0x8000 != 0 ==> (((((c << 1) ^ 0x1021) ^ 0x1021) >> 1) | 0x8000) == c
    ensures c & 0x8000 == 0 ==> (c << 1) >> 1 == c
  {
  }

  lemma UnshiftShift(c: Reg)
    ensures Unshift(Shift(CCITT, c)) == c
  {
    BitsUnshift(c.v);
  }

  lemma {:induction false} ShiftsInjective(a: Reg, b: Reg, n: nat)
    requires Shifts(CCITT, a, n) == Shifts(CCITT, b, n)
    ensures a == b
  {
    hide Shift, Unshift;
    if n > 0 {
      UnshiftShift(Shifts(CCITT, a, n - 1));
      UnshiftShift(Shifts(CCITT, b, n - 1));
      ShiftsInjective(a, b, n - 1);
    }
  }

  lemma FeedInjective(a: Reg, b: Reg, x: Octet)
    requires Feed(CCITT, a, x) == Feed(CCITT, b, x)
    ensures a == b
  {
    hide Sum, High, Shifts;
    ShiftsInjective(Sum(a, High(x)), Sum(b, High(x)), 8);
    Cancel(a, b, High(x));
  }

  /** Equal continuations keep registers apart. */
  lemma {:induction false} StaysDifferent(m: seq<Octet>, n: seq<Octet>, rest: seq<Octet>)
    requires Crc16(m) != Crc16(n)
    ensures Crc16(m + rest) != Crc16(n + rest)
  {
    hide Feed;
    if rest == [] {
      assert m + rest == m && n + rest == n;
    } else {
      var r, x := rest[..|rest| - 1], rest[|rest| - 1];
      StaysDifferent(m, n, r);
      assert (m + rest)[..|m + rest| - 1] == m + r && (n + rest)[..|n + rest| - 1] == n + r;
      if Feed(CCITT, Crc16(m + r), x) == Feed(CCITT, Crc16(n + r), x) {
        FeedInjective(Crc16(m + r), Crc16(n + r), x);
      }
    }
  }

  // The eight shifts written out, for the two facts that depend on the polynomial's coefficients.
  function Eight(c: Reg): Reg {
    Shift(CCITT, Shift(CCITT, Shift(CCITT, Shift(CCITT,
      Shift(CCITT, Shift(CCITT, Shift(CCITT, Shift(CCITT, c))))))))
  }

  lemma EightShifts(c: Reg)
    ensures Shifts(CCITT, c, 8) == Eight(c)
  {
    hide Shift;
    assert Shifts(CCITT, c, 1) == Shift(CCITT, c);
    assert Shifts(CCITT, c, 3) == Shift(CCITT, Shift(CCITT, Shift(CCITT, c)));
    assert Shifts(CCITT, c, 5) == Shift(CCITT, Shift(CCITT, Shifts(CCITT, c, 3)));
    assert Shifts(CCITT, c, 7) == Shift(CCITT, Shift(CCITT, Shifts(CCITT, c, 5)));
  }

  predicate LowZero(c: Reg) { c.v & 0x00ff == 0 }

  lemma BitsImage(d: bv16)
    requires d & 0x00ff == 0 && d != 0
    ensures !LowZero(Eight(Reg(d)))
  {
  }

  lemma BitsHigh(b: bv8)
    ensures ((b as bv16) << 8) & 0x00ff == 0
    ensures b != 0 ==> (b as bv16) << 8 != 0
  {
  }

  /** The image of a byte under eight shifts has a zero low half only if the byte is zero. */
  lemma ImageOfByte(d: Octet)
    requires LowZero(Eight(High(d)))
    ensures d == ZERO8
  {
    hide Eight, LowZero;
    BitsHigh(d.v);
    if d != ZERO8 {
      BitsImage((d.v as bv16) << 8);
    }
  }

  lemma HighLowZero(b: Octet)
    ensures LowZero(High(b))
  {
  }

  /** Two bytes fed into the same register determine it. */
  lemma TwoBytes(s: Reg, x: Octet, y: Octet, x': Octet, y': Octet)
    requires Feed(CCITT, Feed(CCITT, s, x), y) == Feed(CCITT, Feed(CCITT, s, x'), y')
    ensures x == x' && y == y'
  {
    hide Sum, Sum8, High, Shifts, Eight, LowZero;
    var p, p', d := Feed(CCITT, s, x), Feed(CCITT, s, x'), Sum8(x, x');
    ShiftsInjective(Sum(p, High(y)), Sum(p', High(y')), 8);
    Rearrange(p, High(y), p', High(y'));
    HighLinear(y, y');
    HighLowZero(Sum8(y, y'));
    FeedLinear(CCITT, s, s, x, x');
    SumSelf(s);
    SumCommutes(ZERO, High(d));
    SumSelf(High(d));
    EightShifts(High(d));
    ImageOfByte(d);
    SumZero8(x, x');
    SumCommutes(p, High(y));
    SumCommutes(p', High(y'));
    Cancel(High(y), High(y'), p);
    HighInjective(y, y');
  }

  lemma PairDiffers(before: seq<Octet>, x: Octet, y: Octet, x': Octet, y': Octet)
    requires x != x' || y != y'
    ensures Crc16(before + [x] + [y]) != Crc16(before + [x'] + [y'])
  {
    hide Feed, Remainder;
    RemainderSnoc(CCITT, before, x);
    RemainderSnoc(CCITT, before, x');
    RemainderSnoc(CCITT, before + [x], y);
    RemainderSnoc(CCITT, before + [x'], y');
    if Crc16(before + [x] + [y]) == Crc16(before + [x'] + [y']) {
      TwoBytes(Crc16(before), x, y, x', y');
    }
  }

  /** Messages of equal length that differ only within two adjacent bytes never share a checksum. */
  lemma Crc16DetectsBurst(before: seq<Octet>, w: seq<Octet>, w': seq<Octet>, after: seq<Octet>)
    requires 1 <= |w| == |w'| <= 2 && w != w'
    ensures Crc16(before + w + after) != Crc16(before + w' + after)
  {
    hide Remainder;
    if |w| == 2 {
      assert w == [w[0], w[1]] && w' == [w'[0], w'[1]];
      PairDiffers(before, w[0], w[1], w'[0], w'[1]);
      assert before + w == before + [w[0]] + [w[1]] && before + w' == before + [w'[0]] + [w'[1]];
    } else {
      assert w == [w[0]] && w' == [w'[0]];
      PairDiffers(before, w[0], ZERO8, w'[0], ZERO8);
      RemainderSnoc(CCITT, before + w, ZERO8);
      RemainderSnoc(CCITT, before + w', ZERO8);
    }
    StaysDifferent(before + w, before + w', after);
  }

  /** The two bytes send_block appends. */
  function HighByte(c: Reg): Octet { Octet((c.v >> 8) as bv8) }
  function LowByte(c: Reg): Octet { Octet((c.v & 0x00ff) as bv8) }

  lemma BitsSplit(c: bv16)
    ensures c ^ ((((c >> 8) as bv8) as bv16) << 8) == c & 0x00ff
    ensures ((c & 0x00ff) << 8) ^ ((((c & 0x00ff) as bv8) as bv16) << 8) == 0
    ensures (c & 0x00ff) & 0xff00 == 0
  {
  }

  lemma BitsLow(l: bv16)
    requires l & 0xff00 == 0
    ensures Eight(Reg(l)) == Reg(l << 8)
  {
  }

  /** A message followed by its checksum, high byte first, has checksum zero. */
  lemma Crc16OfFrame(m: seq<Octet>)
    ensures var c := Crc16(m); Crc16(m + [HighByte(c)] + [LowByte(c)]) == ZERO
  {
    var c := Crc16(m);
    RemainderSnoc(CCITT, m, HighByte(c));
    RemainderSnoc(CCITT, m + [HighByte(c)], LowByte(c));
    BitsSplit(c.v);
    assert Sum(c, High(HighByte(c))) == Reg(c.v & 0x00ff);
    EightShifts(Reg(c.v & 0x00ff));
    BitsLow(c.v & 0x00ff);
    assert Sum(Reg((c.v & 0x00ff) << 8), High(LowByte(c))) == ZERO;
    hide Shift, Shifts;
    ZeroShifts(CCITT, 8);
  }
}
