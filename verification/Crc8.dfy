/** CRC-8 over command headers, polynomial 0x107, computed bit by bit. */
module Crc8 {
  import opened Crc

  predicate Top8(c: Octet) { c.v & 0x80 != 0 }
  function Double8(c: Octet): Octet { Octet(c.v * 2) }
  const SEVEN: Octet := Octet(0x07)

  function Shift8(c: Octet): Octet {
    if Top8(c) then Sum8(Double8(c), SEVEN) else Double8(c)
  }

  /** The mask of input bit `k`, most significant first; 0 after the last. */
  function Mask(k: nat): bv8 {
    if k == 0 then 0x80 else if k == 1 then 0x40 else if k == 2 then 0x20 else if k == 3 then 0x10
    else if k == 4 then 0x08 else if k == 5 then 0x04 else if k == 6 then 0x02 else if k == 7 then 0x01 else 0
  }

  predicate HasBit(b: Octet, mask: bv8) { b.v & mask != 0 }

  /** One pass of the inner loop: shift the register, then add the polynomial if the input bit is set. */
  function TakeBit(c: Octet, b: Octet, mask: bv8): Octet {
    if HasBit(b, mask) then Sum8(Shift8(c), SEVEN) else Shift8(c)
  }

  function TakeBits(c: Octet, b: Octet, k: nat): Octet {
    if k == 0 then c else TakeBit(TakeBits(c, b, k - 1), b, Mask(k - 1))
  }

  function Crc8(m: seq<Octet>): Octet {
    if m == [] then ZERO8 else TakeBits(Crc8(m[..|m| - 1]), m[|m| - 1], 8)
  }

  /** crc8_ponl_107 */
  method ComputeCrc8(buffer: seq<Octet>) returns (crc: Octet)
    ensures crc == Crc8(buffer)
  {
    hide TakeBit;
    crc := ZERO8;
    var n := 0;
    while n < |buffer|
      invariant 0 <= n <= |buffer|
      invariant crc == Crc8(buffer[..n])
    {
      assert buffer[..n + 1][..n] == buffer[..n];
      ghost var start := crc;
      var i: bv8 := 0x80;
      ghost var k := 0;
      while i > 0
        invariant 0 <= k <= 8 && i == Mask(k)
        invariant crc == TakeBits(start, buffer[n], k)
        decreases 8 - k
      {
        crc := TakeBit(crc, buffer[n], i);
        i := i / 2;
        k := k + 1;
      }
      n := n + 1;
    }
    assert buffer[..|buffer|] == buffer;
  }

  // ------------------------------------------------------------------
  // The bit loop is the shift register of the polynomial, held in the high half

  const P107: Reg := Reg(0x0700)

  lemma BitsShift8(c: bv8)
    ensures Top(High(Octet(c))) == Top8(Octet(c))
    ensures Double(High(Octet(c))) == High(Double8(Octet(c)))
    ensures High(SEVEN) == P107 && High(ZERO8) == ZERO
  {
  }

  lemma HighShift(c: Octet)
    ensures High(Shift8(c)) == Shift(P107, High(c))
  {
    hide Top, Top8, Double, Double8, High, Sum, Sum8;
    BitsShift8(c.v);
    HighLinear(Double8(c), SEVEN);
  }

  function HighMask(k: nat): Reg { High(Octet(Mask(k))) }

  lemma BitsMask(k: nat)
    requires 1 <= k < 8
    ensures Shift(P107, HighMask(k)) == HighMask(k - 1)
  {
  }

  lemma BitsTopMask()
    ensures Shift(P107, HighMask(0)) == P107
  {
  }

  lemma {:induction false} ShiftsInner(p: Reg, c: Reg, n: nat)
    ensures Shifts(p, c, n + 1) == Shifts(p, Shift(p, c), n)
  {
    hide Shift;
    if n > 0 {
      ShiftsInner(p, c, n - 1);
    }
  }

  /** A single input bit, shifted through, leaves the polynomial. */
  lemma {:induction false} MaskShifts(k: nat)
    requires k < 8
    ensures Shifts(P107, HighMask(k), k + 1) == P107
  {
    hide Shift, HighMask;
    ShiftsInner(P107, HighMask(k), k);
    if k == 0 {
      BitsTopMask();
    } else {
      BitsMask(k);
      MaskShifts(k - 1);
    }
  }

  /** The first `k` bits of a byte, in the high half. */
  function Leading(b: Octet, k: nat): Reg {
    High(Octet(b.v & Upper(k)))
  }

  function Upper(k: nat): bv8 {
    if k == 0 then 0 else if k == 1 then 0x80 else if k == 2 then 0xc0 else if k == 3 then 0xe0
    else if k == 4 then 0xf0 else if k == 5 then 0xf8 else if k == 6 then 0xfc else if k == 7 then 0xfe else 0xff
  }

  lemma BitsLeading(b: bv8, k: nat)
    requires k < 8
    ensures Leading(Octet(b), k + 1) ==
            if HasBit(Octet(b), Mask(k)) then Sum(Leading(Octet(b), k), HighMask(k)) else Leading(Octet(b), k)
  {
    if k == 0 {} else if k == 1 {} else if k == 2 {} else if k == 3 {}
    else if k == 4 {} else if k == 5 {} else if k == 6 {} else {}
  }

  lemma BitsAll(b: bv8)
    ensures Leading(Octet(b), 0) == ZERO && Leading(Octet(b), 8) == High(Octet(b))
  {
  }

  lemma {:induction false} TakeBitsIsShifts(c: Octet, b: Octet, k: nat)
    requires k <= 8
    ensures High(TakeBits(c, b, k)) == Shifts(P107, Sum(High(c), Leading(b, k)), k)
  {
    hide Shift, Shift8, High, HighMask, Sum, Sum8, HasBit, Mask, Leading;
    if k == 0 {
      BitsAll(b.v);
      SumSelf(High(c));
    } else {
      BitsLeading(b.v, k - 1);
      TakeBitsIsShifts(c, b, k - 1);
      var r, x := TakeBits(c, b, k - 1), Sum(High(c), Leading(b, k - 1));
      HighShift(r);
      BitsShift8(0);
      if HasBit(b, Mask(k - 1)) {
        HighLinear(Shift8(r), SEVEN);
        SumAssociates(High(c), Leading(b, k - 1), HighMask(k - 1));
        ShiftsLinear(P107, x, HighMask(k - 1), k);
        MaskShifts(k - 1);
      }
    }
  }

  lemma SumAssociates(a: Reg, b: Reg, c: Reg)
    ensures Sum(a, Sum(b, c)) == Sum(Sum(a, b), c)
  {
  }

  /** The bit loop equals the usual form: add the whole byte to the register, then shift eight times. */
  lemma BitLoopIsUsualForm(c: Octet, b: Octet)
    ensures High(TakeBits(c, b, 8)) == Feed(P107, High(c), b)
  {
    TakeBitsIsShifts(c, b, 8);
    BitsAll(b.v);
    hide Shifts, High, Sum, TakeBits, Leading;
  }

  lemma {:induction false} Crc8IsRegister(m: seq<Octet>)
    ensures High(Crc8(m)) == Remainder(P107, m)
  {
    hide TakeBits, Feed, High;
    if m == [] {
      BitsShift8(0);
    } else {
      Crc8IsRegister(m[..|m| - 1]);
      BitLoopIsUsualForm(Crc8(m[..|m| - 1]), m[|m| - 1]);
    }
  }

  // ------------------------------------------------------------------
  // Its algebra

  /** The checksum is linear. */
  lemma Crc8Linear(m: seq<Octet>, n: seq<Octet>)
    requires |m| == |n|
    ensures Crc8(Xor(m, n)) == Sum8(Crc8(m), Crc8(n))
  {
    hide *;
    Crc8IsRegister(m);
    Crc8IsRegister(n);
    Crc8IsRegister(Xor(m, n));
    RemainderLinear(P107, m, n);
    HighLinear(Crc8(m), Crc8(n));
    HighInjective(Crc8(Xor(m, n)), Sum8(Crc8(m), Crc8(n)));
  }

  /** A message followed by its checksum has checksum zero. */
  lemma Crc8OfFrame(m: seq<Octet>)
    ensures Crc8(m + [Crc8(m)]) == ZERO8
  {
    hide Crc8, Remainder, High, Sum, Shifts;
    var c := Crc8(m);
    Crc8IsRegister(m);
    Crc8IsRegister(m + [c]);
    RemainderSnoc(P107, m, c);
    SumSelf(High(c));
    ZeroShifts(P107, 8);
    BitsShift8(0);
    HighInjective(Crc8(m + [c]), ZERO8);
  }

  function Unshift8(s: Octet): Octet {
    if s.v & 1 != 0 then Octet(((s.v ^ 0x07) >> 1) | 0x80) else Octet(s.v >> 1)
  }

  lemma BitsUnshift8(c: bv8)
    ensures Unshift8(Shift8(Octet(c))) == Octet(c)
  {
  }

  lemma BitsUntake(a: bv8)
    ensures Sum8(Sum8(Octet(a), SEVEN), SEVEN) == Octet(a)
  {
  }

  lemma TakeBitInjective(a: Octet, b: Octet, x: Octet, mask: bv8)
    requires TakeBit(a, x, mask) == TakeBit(b, x, mask)
    ensures a == b
  {
    hide Shift8, Sum8, Unshift8, HasBit;
    BitsUnshift8(a.v);
    BitsUnshift8(b.v);
    BitsUntake(Shift8(a).v);
    BitsUntake(Shift8(b).v);
  }

  lemma {:induction false} TakeBitsInjective(a: Octet, b: Octet, x: Octet, k: nat)
    requires TakeBits(a, x, k) == TakeBits(b, x, k)
    ensures a == b
  {
    hide TakeBit, Mask;
    if k > 0 {
      TakeBitInjective(TakeBits(a, x, k - 1), TakeBits(b, x, k - 1), x, Mask(k - 1));
      TakeBitsInjective(a, b, x, k - 1);
    }
  }

  /** Register and byte play the same part. */
  lemma TakeBitsSymmetric(c: Octet, b: Octet)
    ensures TakeBits(c, b, 8) == TakeBits(b, c, 8)
  {
    hide TakeBits, High, Sum, Shifts;
    BitLoopIsUsualForm(c, b);
    BitLoopIsUsualForm(b, c);
    SumCommutes(High(c), High(b));
    HighInjective(TakeBits(c, b, 8), TakeBits(b, c, 8));
  }

  /** Messages of equal length that differ in one byte never share a checksum. */
  lemma {:induction false} Crc8DetectsByte(before: seq<Octet>, x: Octet, x': Octet, after: seq<Octet>)
    requires x != x'
    ensures Crc8(before + [x] + after) != Crc8(before + [x'] + after)
  {
    hide TakeBits;
    var m, m' := before + [x] + after, before + [x'] + after;
    if after == [] {
      assert m[..|m| - 1] == before && m'[..|m'| - 1] == before;
      TakeBitsSymmetric(Crc8(before), x);
      TakeBitsSymmetric(Crc8(before), x');
      if Crc8(m) == Crc8(m') {
        TakeBitsInjective(x, x', Crc8(before), 8);
      }
    } else {
      var r, z := after[..|after| - 1], after[|after| - 1];
      Crc8DetectsByte(before, x, x', r);
      assert m[..|m| - 1] == before + [x] + r && m'[..|m'| - 1] == before + [x'] + r;
      if Crc8(m) == Crc8(m') {
        TakeBitsInjective(Crc8(before + [x] + r), Crc8(before + [x'] + r), z, 8);
      }
    }
  }
}
