/** What the CRC shift register computes: the remainder of dividing the message, taken as a polynomial
    over two elements and multiplied by x^16, by the generator polynomial. */
module CrcDivision {
  import opened Crc
  import Crc8

  /** Coefficients, highest power first. */
  type Poly = seq<bool>

  function Zeros(n: nat): (z: Poly)
    ensures |z| == n && forall i :: 0 <= i < n ==> !z[i]
  {
    seq(n, _ => false)
  }

  function Plus(a: Poly, b: Poly): (c: Poly)
    requires |a| == |b|
    ensures |c| == |a| && forall i :: 0 <= i < |a| ==> c[i] == (a[i] != b[i])
  {
    seq(|a|, i requires 0 <= i < |a| => a[i] != b[i])
  }

  /** The product of a polynomial and the generator `g`, by long multiplication. */
  function Product(q: Poly, g: Poly): (r: Poly)
    requires |g| == 17
    ensures |r| == |q| + 16
  {
    if q == [] then Zeros(16)
    else
      var n := |q| - 1;
      Plus(Product(q[..n], g) + [false], Zeros(n) + Scaled(q[n], g))
  }

  function Scaled(t: bool, g: Poly): (r: Poly)
    ensures |r| == |g|
  {
    if t then g else Zeros(|g|)
  }

  // ------------------------------------------------------------------
  // Registers and messages as polynomials

  function Doubled(r: Reg, k: nat): Reg {
    if k == 0 then r else Double(Doubled(r, k - 1))
  }

  /** The k-th coefficient is the top one after k shifts. */
  predicate Coef(r: Reg, k: nat) { Top(Doubled(r, k)) }

  function Coefs(r: Reg): (c: Poly)
    ensures |c| == 16
  {
    seq(16, k requires 0 <= k < 16 => Coef(r, k))
  }

  /** The generator of a shift register: x^16 and the register's polynomial. */
  function Generator(p: Reg): (g: Poly)
    ensures |g| == 17 && g[0]
  {
    [true] + Coefs(p)
  }

  /** The generator of CRC-16/XMODEM, x^16 + x^12 + x^5 + 1. */
  lemma GeneratorOfCcitt()
    ensures Generator(CCITT) == [true, false, false, false, true, false, false, false, false,
                                 false, false, true, false, false, false, false, true]
  {
    assert Doubled(CCITT, 0) == Reg(0x1021);
    assert Doubled(CCITT, 1) == Reg(0x2042);
    assert Doubled(CCITT, 2) == Reg(0x4084);
    assert Doubled(CCITT, 3) == Reg(0x8108);
    assert Doubled(CCITT, 4) == Reg(0x0210);
    assert Doubled(CCITT, 5) == Reg(0x0420);
    assert Doubled(CCITT, 6) == Reg(0x0840);
    assert Doubled(CCITT, 7) == Reg(0x1080);
    assert Doubled(CCITT, 8) == Reg(0x2100);
    assert Doubled(CCITT, 9) == Reg(0x4200);
    assert Doubled(CCITT, 10) == Reg(0x8400);
    assert Doubled(CCITT, 11) == Reg(0x0800);
    assert Doubled(CCITT, 12) == Reg(0x1000);
    assert Doubled(CCITT, 13) == Reg(0x2000);
    assert Doubled(CCITT, 14) == Reg(0x4000);
    assert Doubled(CCITT, 15) == Reg(0x8000);
  }

  function ByteBits(b: Octet): (c: Poly)
    ensures |c| == 8
  {
    Coefs(High(b))[..8]
  }

  /** The bits of a message, first byte and most significant bit first. */
  function Bits(m: seq<Octet>): (c: Poly)
    ensures |c| == 8 * |m|
  {
    if m == [] then [] else Bits(m[..|m| - 1]) + ByteBits(m[|m| - 1])
  }

  lemma {:induction false} DoubledFirst(r: Reg, k: nat)
    ensures Doubled(Double(r), k) == Doubled(r, k + 1)
  {
    hide Double;
    if k > 0 {
      DoubledFirst(r, k - 1);
    }
  }

  lemma {:induction false} DoubledTwice(r: Reg, j: nat, k: nat)
    ensures Doubled(Doubled(r, j), k) == Doubled(r, j + k)
  {
    hide Double;
    if k > 0 {
      DoubledTwice(r, j, k - 1);
    }
  }

  lemma BitsFourTimes(c: bv16)
    ensures Double(Double(Double(Double(Reg(c))))) == Reg(c << 4)
  {
  }

  lemma FourTimes(r: Reg)
    ensures Doubled(r, 4) == Reg(r.v << 4)
  {
    hide Double;
    BitsFourTimes(r.v);
    assert Doubled(r, 1) == Double(r) && Doubled(r, 2) == Double(Double(r));
    assert Doubled(r, 3) == Double(Double(Double(r)));
  }

  lemma BitsGone(c: bv16, b: bv8)
    ensures (((c << 4) << 4) << 4) << 4 == 0 && ((High(Octet(b)).v << 4) << 4) == 0
  {
  }

  /** Sixteen shifts empty a register; eight empty one that holds a byte in its high half. */
  lemma ShiftedOut(r: Reg, b: Octet)
    ensures Doubled(r, 16) == ZERO && Doubled(High(b), 8) == ZERO
  {
    BitsGone(r.v, b.v);
    FourTimes(r);
    FourTimes(Doubled(r, 4));
    FourTimes(Doubled(r, 8));
    FourTimes(Doubled(r, 12));
    FourTimes(High(b));
    FourTimes(Doubled(High(b), 4));
    hide Doubled, High;
    DoubledTwice(r, 4, 4);
    DoubledTwice(r, 8, 4);
    DoubledTwice(r, 12, 4);
    DoubledTwice(High(b), 4, 4);
  }

  lemma {:induction false} DoubledSum(a: Reg, b: Reg, k: nat)
    ensures Doubled(Sum(a, b), k) == Sum(Doubled(a, k), Doubled(b, k))
  {
    hide Double, Sum;
    if k > 0 {
      DoubledSum(a, b, k - 1);
      DoubleLinear(Doubled(a, k - 1), Doubled(b, k - 1));
    }
  }

  lemma {:induction false} DoubledZero(k: nat)
    ensures Doubled(ZERO, k) == ZERO && !Coef(ZERO, k)
  {
    if k > 0 {
      DoubledZero(k - 1);
    }
  }

  lemma CoefsSum(a: Reg, b: Reg)
    ensures Coefs(Sum(a, b)) == Plus(Coefs(a), Coefs(b))
  {
    hide Top, Sum, Doubled;
    forall k: nat | k < 16 ensures Coef(Sum(a, b), k) == (Coef(a, k) != Coef(b, k)) {
      DoubledSum(a, b, k);
      TopLinear(Doubled(a, k), Doubled(b, k));
    }
  }

  lemma CoefsHigh(b: Octet)
    ensures Coefs(High(b)) == ByteBits(b) + Zeros(8)
  {
    ShiftedOut(ZERO, b);
    hide Top, High, Doubled;
    forall k: nat | 8 <= k < 16 ensures !Coef(High(b), k) {
      DoubledTwice(High(b), 8, k - 8);
      DoubledZero(k - 8);
    }
  }

  lemma CoefsDouble(c: Reg)
    ensures [Top(c)] + Coefs(Double(c)) == Coefs(c) + [false]
  {
    ShiftedOut(c, ZERO8);
    assert Doubled(c, 0) == c;
    DoubledZero(0);
    hide Top, Double, Doubled;
    forall k: nat | k < 16 ensures Coef(Double(c), k) == (k < 15 && Coef(c, k + 1)) {
      DoubledFirst(c, k);
    }
    var x, y := [Top(c)] + Coefs(Double(c)), Coefs(c) + [false];
    forall i | 0 <= i < 17 ensures x[i] == y[i] {
      if i > 0 {
        assert x[i] == Coef(Double(c), i - 1);
      }
    }
  }

  lemma BitsHalf(a: bv16)
    ensures !Top(Reg(a)) && Double(Reg(a)) == ZERO ==> a == 0
  {
  }

  /** A register all of whose coefficients from the k-th on are zero is zero after k shifts. */
  lemma {:induction false} ZeroFrom(r: Reg, k: nat)
    requires k <= 16 && forall j :: k <= j < 16 ==> !Coef(r, j)
    ensures Doubled(r, k) == ZERO
    decreases 16 - k
  {
    if k == 16 {
      ShiftedOut(r, ZERO8);
    } else {
      ZeroFrom(r, k + 1);
      BitsHalf(Doubled(r, k).v);
      assert !Coef(r, k);
      hide Top, Double;
    }
  }

  // ------------------------------------------------------------------
  // Division

  /** One shift takes the generator out once if the top coefficient is set. */
  lemma ShiftDivides(p: Reg, c: Reg)
    ensures Coefs(c) + [false] == Plus(Scaled(Top(c), Generator(p)), [false] + Coefs(Shift(p, c)))
  {
    hide Coefs, Top, Double, Sum;
    CoefsDouble(c);
    CoefsSum(Double(c), p);
  }

  lemma {:induction false} ShiftsDivide(p: Reg, c: Reg, n: nat) returns (q: Poly)
    ensures |q| == n
    ensures Coefs(c) + Zeros(n) == Plus(Product(q, Generator(p)), Zeros(n) + Coefs(Shifts(p, c, n)))
  {
    hide Coefs, Shift, Top, Generator;
    if n == 0 {
      q := [];
    } else {
      var q' := ShiftsDivide(p, c, n - 1);
      var s := Shifts(p, c, n - 1);
      q := q' + [Top(s)];
      ShiftDivides(p, s);
      assert q[..n - 1] == q';
      NextDigit(Coefs(c), Product(q', Generator(p)), Coefs(s), Scaled(Top(s), Generator(p)), Coefs(Shift(p, s)), n - 1);
    }
  }

  lemma NextDigit(c: Poly, a: Poly, s: Poly, g: Poly, r: Poly, n: nat)
    requires |c| == |s| == |r| == 16 && |a| == n + 16 && |g| == 17
    requires c + Zeros(n) == Plus(a, Zeros(n) + s) && s + [false] == Plus(g, [false] + r)
    ensures c + Zeros(n + 1) == Plus(Plus(a + [false], Zeros(n) + g), Zeros(n + 1) + r)
  {
    var x, y := c + Zeros(n), c + Zeros(n + 1);
    var u := Plus(Plus(a + [false], Zeros(n) + g), Zeros(n + 1) + r);
    forall i | 0 <= i < n + 17 ensures y[i] == u[i] {
      if i < n {
        assert y[i] == x[i] && u[i] == a[i];
      } else {
        var j := i - n;
        assert (s + [false])[j] == (g[j] != ([false] + r)[j]);
        assert (Zeros(n + 1) + r)[i] == ([false] + r)[j];
        assert i < n + 16 ==> y[i] == x[i] && (Zeros(n) + s)[i] == s[j];
      }
    }
  }

  /** Long multiplication may be cut in two. */
  lemma {:induction false} ProductConcat(q: Poly, r: Poly, g: Poly)
    requires |g| == 17
    ensures Product(q + r, g) == Plus(Product(q, g) + Zeros(|r|), Zeros(|q|) + Product(r, g))
  {
    hide Scaled;
    if r == [] {
      assert q + r == q;
    } else {
      var n := |r| - 1;
      ProductConcat(q, r[..n], g);
      assert (q + r)[..|q + r| - 1] == q + r[..n];
      ConcatStep(Product(q, g), Product(r[..n], g), Scaled(r[n], g), |q|, n);
    }
  }

  lemma ConcatStep(a: Poly, b: Poly, s: Poly, k: nat, n: nat)
    requires |a| == k + 16 && |b| == n + 16 && |s| == 17
    ensures Plus(Plus(a + Zeros(n), Zeros(k) + b) + [false], Zeros(k + n) + s) ==
            Plus(a + Zeros(n + 1), Zeros(k) + Plus(b + [false], Zeros(n) + s))
  {
    var left, right := Plus(a + Zeros(n), Zeros(k) + b) + [false], Plus(b + [false], Zeros(n) + s);
    var x, y := Plus(left, Zeros(k + n) + s), Plus(a + Zeros(n + 1), Zeros(k) + right);
    forall i | 0 <= i < k + n + 17 ensures x[i] == y[i] {
      assert (a + Zeros(n + 1))[i] == (i < k + 16 && a[i]);
      if i < k {
        assert left[i] == a[i] && (Zeros(k) + right)[i] == false;
      } else {
        var j := i - k;
        assert (Zeros(k) + right)[i] == right[j] && right[j] == ((b + [false])[j] != (Zeros(n) + s)[j]);
        assert (Zeros(k + n) + s)[i] == (Zeros(n) + s)[j];
        assert i < k + n + 16 ==> left[i] == ((a + Zeros(n))[i] != b[j]);
      }
    }
  }

  ghost predicate DividesTo(p: Reg, m: seq<Octet>, q: Poly, r: Reg) {
    |q| == 8 * |m| && Bits(m) + Zeros(16) == Plus(Product(q, Generator(p)), Zeros(8 * |m|) + Coefs(r))
  }

  lemma {:induction false} RegisterDivides(p: Reg, m: seq<Octet>) returns (q: Poly)
    ensures DividesTo(p, m, q, Remainder(p, m))
  {
    hide Coefs, Generator, Product, ByteBits, Shifts, High, Sum;
    if m == [] {
      q := [];
      ZeroCase(p);
    } else {
      var m', b := m[..|m| - 1], m[|m| - 1];
      var q1 := RegisterDivides(p, m');
      var c := Sum(Remainder(p, m'), High(b));
      var q2 := ShiftsDivide(p, c, 8);
      CoefsSum(Remainder(p, m'), High(b));
      CoefsHigh(b);
      q := q1 + q2;
      ProductConcat(q1, q2, Generator(p));
      NextByte(Bits(m'), ByteBits(b), Product(q1, Generator(p)), Coefs(Remainder(p, m')),
               Product(q2, Generator(p)), Coefs(Shifts(p, c, 8)), 8 * |m'|);
    }
  }

  lemma ZeroCase(p: Reg)
    ensures DividesTo(p, [], [], ZERO)
  {
    hide Coef;
    forall k: nat | k < 16 ensures !Coef(ZERO, k) {
      DoubledZero(k);
    }
    assert Coefs(ZERO) == Zeros(16);
  }

  lemma NextByte(m: Poly, b: Poly, a: Poly, r: Poly, a': Poly, r': Poly, n: nat)
    requires |m| == n && |b| == 8 && |a| == n + 16 && |r| == 16 && |a'| == 24 && |r'| == 16
    requires m + Zeros(16) == Plus(a, Zeros(n) + r)
    requires Plus(r, b + Zeros(8)) + Zeros(8) == Plus(a', Zeros(8) + r')
    ensures m + b + Zeros(16) == Plus(Plus(a + Zeros(8), Zeros(n) + a'), Zeros(n + 8) + r')
  {
    var y, u := m + b + Zeros(16), Plus(Plus(a + Zeros(8), Zeros(n) + a'), Zeros(n + 8) + r');
    var x, z := m + Zeros(16), Plus(r, b + Zeros(8)) + Zeros(8);
    forall i | 0 <= i < n + 24 ensures y[i] == u[i] {
      if i < n {
        assert y[i] == x[i] && u[i] == a[i];
      } else {
        var j := i - n;
        assert z[j] == (a'[j] != (Zeros(8) + r')[j]);
        assert (Zeros(n + 8) + r')[i] == (Zeros(8) + r')[j];
        assert j < 16 ==> x[i] == (a[i] != r[j]) && !x[i] && z[j] == (r[j] != (b + Zeros(8))[j]);
        assert y[i] == (j < 8 && b[j]);
      }
    }
  }

  // ------------------------------------------------------------------
  // There is only one remainder

  lemma {:induction false} ProductLinear(q: Poly, r: Poly, g: Poly)
    requires |g| == 17 && |q| == |r|
    ensures Product(Plus(q, r), g) == Plus(Product(q, g), Product(r, g))
  {
    if q != [] {
      var n := |q| - 1;
      ProductLinear(q[..n], r[..n], g);
      assert Plus(q, r)[..n] == Plus(q[..n], r[..n]);
    }
  }

  lemma LastDigit(a: Poly, s: Poly, n: nat)
    requires |a| == n + 16 && |s| == 17
    ensures var r := Plus(a + [false], Zeros(n) + s);
            (forall i :: 0 <= i < n ==> r[i] == a[i]) && r[n] == (a[n] != s[0])
  {
  }

  /** A multiple of the generator of degree below 16 is zero. */
  lemma {:induction false} SmallMultipleIsZero(q: Poly, g: Poly)
    requires |g| == 17 && g[0] && forall i :: 0 <= i < |q| ==> !Product(q, g)[i]
    ensures q == Zeros(|q|) && Product(q, g) == Zeros(|q| + 16)
  {
    if q != [] {
      var n := |q| - 1;
      var a, s := Product(q[..n], g), Scaled(q[n], g);
      LastDigit(a, s, n);
      assert Product(q, g) == Plus(a + [false], Zeros(n) + s);
      hide Product;
      assert forall i :: 0 <= i < n ==> !a[i];
      SmallMultipleIsZero(q[..n], g);
      assert !s[0] && !q[n];
      assert q == q[..n] + [q[n]];
    }
  }

  lemma RemainderUnique(p: Reg, m: seq<Octet>, q: Poly, r: Reg, q': Poly, r': Reg)
    requires DividesTo(p, m, q, r) && DividesTo(p, m, q', r')
    ensures r == r'
  {
    hide Generator, Product, Coefs, Bits;
    var g, n := Generator(p), 8 * |m|;
    ProductLinear(q, q', g);
    var d := Plus(Coefs(r), Coefs(r'));
    SameSum(Product(q, g), Zeros(n) + Coefs(r), Product(q', g), Zeros(n) + Coefs(r'));
    assert Plus(Zeros(n) + Coefs(r), Zeros(n) + Coefs(r')) == Zeros(n) + d;
    SmallMultipleIsZero(Plus(q, q'), g);
    assert d == (Zeros(n) + d)[n..];
    SameCoefs(r, r');
  }

  lemma SameSum(a: Poly, b: Poly, c: Poly, d: Poly)
    requires |a| == |b| == |c| == |d| && Plus(a, b) == Plus(c, d)
    ensures Plus(a, c) == Plus(b, d)
  {
    var x, y := Plus(a, b), Plus(c, d);
    forall i | 0 <= i < |a| ensures Plus(a, c)[i] == Plus(b, d)[i] {
      assert x[i] == y[i];
    }
  }

  lemma SameCoefs(r: Reg, r': Reg)
    requires Plus(Coefs(r), Coefs(r')) == Zeros(16)
    ensures r == r'
  {
    hide Coef, Sum;
    var d := Sum(r, r');
    CoefsSum(r, r');
    forall k: nat | k < 16 ensures !Coef(d, k) {
      assert !Coefs(d)[k];
    }
    ZeroFrom(d, 0);
    SumSelf(r');
    Cancel(r, r', r');
  }

  ghost predicate IsRemainder(p: Reg, m: seq<Octet>, r: Reg) {
    exists q :: DividesTo(p, m, q, r)
  }

  /** The shift register holds the remainder of the division, and no other value is a remainder. */
  lemma RegisterIsRemainder(p: Reg, m: seq<Octet>, r: Reg)
    ensures IsRemainder(p, m, r) <==> r == Remainder(p, m)
  {
    hide DividesTo, Remainder;
    var q := RegisterDivides(p, m);
    if IsRemainder(p, m, r) {
      var q' :| DividesTo(p, m, q', r);
      RemainderUnique(p, m, q, Remainder(p, m), q', r);
    }
  }

  /** CRC-16 is the remainder modulo x^16 + x^12 + x^5 + 1. */
  lemma Crc16IsRemainder(m: seq<Octet>, r: Reg)
    ensures IsRemainder(CCITT, m, r) <==> r == Crc16(m)
  {
    RegisterIsRemainder(CCITT, m, r);
  }

  /** CRC-8 is the remainder modulo x^8 + x^2 + x + 1, both sides multiplied by x^8. */
  lemma Crc8IsRemainder(m: seq<Octet>, c: Octet)
    ensures IsRemainder(Crc8.P107, m, High(c)) <==> c == Crc8.Crc8(m)
  {
    hide *;
    RegisterIsRemainder(Crc8.P107, m, High(c));
    Crc8.Crc8IsRegister(m);
    if High(c) == High(Crc8.Crc8(m)) {
      HighInjective(c, Crc8.Crc8(m));
    }
  }
}
