/** Streaming MD5: a 64-byte buffer and a bit counter split over two 32-bit words. */
module Md5 {
  import opened Common
  import opened Md5Spec

  /** The two counter words hold the bit length of `n` bytes modulo 2^64. */
  predicate Counts(lo: u32, hi: u32, n: nat) {
    hi * 0x1_0000_0000 + lo == 8 * n % 0x1_0000_0000_0000_0000
  }

  /** The counter update of MD5Update, with its 32-bit truncations. */
  function AddLow(lo: u32, len: u32): u32 {
    Wrap32(lo + Wrap32(len * 8))
  }

  function AddHigh(lo: u32, hi: u32, len: u32): u32 {
    var carried := if AddLow(lo, len) < Wrap32(len * 8) then Wrap32(hi + 1) else hi;
    Wrap32(carried + len / 0x2000_0000)
  }

  lemma LowCarry(lo: u32, len: u32)
    ensures var carry := if AddLow(lo, len) < Wrap32(len * 8) then 1 else 0;
            lo + len * 8 == (carry + len / 0x2000_0000) * 0x1_0000_0000 + AddLow(lo, len)
  {
    var low, high := Wrap32(len * 8), len / 0x2000_0000;
    assert len * 8 == high * 0x1_0000_0000 + low;
    var carry := if AddLow(lo, len) < low then 1 else 0;
    assert lo + low == carry * 0x1_0000_0000 + AddLow(lo, len);
  }

  lemma HighSum(lo: u32, hi: u32, len: u32)
    ensures AddHigh(lo, hi, len) ==
            Wrap32(hi + (if AddLow(lo, len) < Wrap32(len * 8) then 1 else 0) + len / 0x2000_0000)
  {
    hide AddLow;
  }

  /** The carry out of the low word is detected by comparison, and nothing is lost. */
  lemma CounterAdds(lo: u32, hi: u32, n: nat, len: u32)
    requires Counts(lo, hi, n)
    ensures Counts(AddLow(lo, len), AddHigh(lo, hi, len), n + len)
  {
    LowCarry(lo, len);
    var carry := if AddLow(lo, len) < Wrap32(len * 8) then 1 else 0;
    var sum := hi + carry + len / 0x2000_0000;
    HighSum(lo, hi, len);
    hide AddLow, AddHigh;
    var k, q, r := 8 * n / 0x1_0000_0000_0000_0000, sum / 0x1_0000_0000, sum % 0x1_0000_0000;
    Combine(k, hi, lo, n, len, sum - hi, AddLow(lo, len), q, r);
    Remainder(8 * (n + len), k + q, r * 0x1_0000_0000 + AddLow(lo, len));
  }

  lemma Combine(k: int, hi: int, lo: int, n: int, len: int, c: int, low: int, q: int, r: int)
    requires 8 * n == k * 0x1_0000_0000_0000_0000 + (hi * 0x1_0000_0000 + lo)
    requires lo + len * 8 == c * 0x1_0000_0000 + low
    requires hi + c == q * 0x1_0000_0000 + r
    ensures 8 * (n + len) == (k + q) * 0x1_0000_0000_0000_0000 + (r * 0x1_0000_0000 + low)
  {
  }

  lemma Remainder(x: int, q: int, r: int)
    requires x == q * 0x1_0000_0000_0000_0000 + r && 0 <= r < 0x1_0000_0000_0000_0000
    ensures x % 0x1_0000_0000_0000_0000 == r
  {
  }

  /** The number of buffered bytes can be read off the low counter word. */
  lemma BufferedFromCounter(lo: u32, hi: u32, n: nat)
    requires Counts(lo, hi, n)
    ensures lo / 8 % 64 == n % 64
  {
    var k := 8 * n / 0x1_0000_0000_0000_0000;
    var high := (k * 0x1_0000_0000 + hi) * 0x80_0000;
    assert 8 * n == k * 0x1_0000_0000_0000_0000 + hi * 0x1_0000_0000 + lo;
    assert lo == 8 * (n - 64 * high);
    SameModulo64(high, lo / 8);
  }

  lemma SameModulo64(q: int, r: int)
    ensures (64 * q + r) % 64 == r % 64
  {
  }

  /** How long an input may be so that the block loop's `i + 64` stays within 32 bits. */
  predicate LoopFits(buffered: nat, len: nat)
    requires buffered < 64
  {
    len < 0x1_0000_0000 - 64 + (64 - buffered) % 64
  }

  /** Whether the block loop goes on after `j` turns: its counter is a 32-bit word. */
  predicate GoesOn(buffered: nat, len: u32, j: nat) {
    Wrap32(Wrap32(64 - buffered + 64 * j) + 64) <= len
  }

  /** The loop ends if and only if the input is not too long; otherwise its guard holds at every value
      the counter takes, and MD5Update never returns. */
  lemma LoopEndsIffFits(buffered: nat, len: u32)
    requires buffered < 64 && 64 - buffered <= len
    ensures (exists j: nat :: !GoesOn(buffered, len, j)) <==> LoopFits(buffered, len)
  {
    if LoopFits(buffered, len) {
      LastTurn(buffered, len, (len - (64 - buffered)) / 64);
    } else {
      forall j: nat ensures GoesOn(buffered, len, j) {
        CounterBelow(64 - buffered, j);
      }
    }
  }

  lemma LastTurn(buffered: nat, len: u32, k: nat)
    requires buffered < 64 && LoopFits(buffered, len)
    requires 64 - buffered + 64 * k <= len < 64 - buffered + 64 * k + 64
    ensures !GoesOn(buffered, len, k)
  {
    GuardFits(buffered, len, k);
  }

  /** The counter keeps its distance to the multiples of 64, so it never comes closer to 2^32 than that. */
  lemma CounterBelow(start: nat, j: nat)
    requires 1 <= start <= 64
    ensures Wrap32(Wrap32(start + 64 * j) + 64) <= 0x1_0000_0000 - 64 + start % 64
  {
    var i: int := Wrap32(start + 64 * j);
    var k := (start + 64 * j) / 0x1_0000_0000;
    assert i == start + 64 * (j - k * 0x400_0000);
    var n: int := Wrap32(i + 64);
    assert n == i + 64 || n == i + 64 - 64 * 0x400_0000;
    assert n % 64 == start % 64;
    assert n == 64 * (n / 64) + start % 64 && n / 64 <= 0x3ff_ffff;
  }

  /** memcpy into a buffer */
  method CopyTo(dst: array<Byte>, at: nat, src: seq<Byte>)
    requires at + |src| <= dst.Length
    modifies dst
    ensures dst[..] == old(dst[..at]) + src + old(dst[at + |src|..])
  {
    for j := 0 to |src|
      invariant dst[..at] == old(dst[..at])
      invariant dst[at..at + j] == src[..j]
      invariant dst[at + |src|..] == old(dst[at + |src|..])
    {
      dst[at + j] := src[j];
    }
  }

  lemma GuardFits(buffered: nat, len: u32, k: nat)
    requires buffered < 64 && LoopFits(buffered, len) && 64 - buffered + 64 * k <= len
    ensures 64 - buffered + 64 * k + 64 < 0x1_0000_0000
  {
  }

  lemma {:induction false} Multiple(q: nat)
    ensures 64 * q % 64 == 0
  {
  }

  /** The macros FF, GG, HH and II: the new value of the first register. */
  method RunLine(r: nat, first: Word, b: Word, c: Word, d: Word, x: Word, s: bv6, ac: Word) returns (a: Word)
    requires 0 < s < 32
    ensures a == Line(r, first, b, c, d, x, s, ac)
  {
    hide Add, Aux, Rot;
    a := first;
    a := Add(a, Add(Add(Aux(r, b, c, d), x), ac));
    a := Rotate(a, s);
    a := Add(a, b);
  }

  lemma Place(g: nat, i: nat)
    requires i < 4
    ensures (4 * g + i) / 16 == g / 4 && (4 * g + i) % 16 == 4 * (g % 4) + i
  {
    var r, m := g / 4, g % 4;
    assert g == 4 * r + m && 4 * g + i == 16 * r + (4 * m + i);
  }

  lemma NextOperation(s: State, x: seq<Word>, g: nat, i: nat)
    requires |x| == 16 && g < 16 && i < 4
    ensures var r, j := g / 4, 4 * (g % 4) + i;
            && r < 4 && j < 16 && GoodOp(OpAt(r, j))
            && Operations(s, x, 4 * g + i + 1) == Operation(r, Operations(s, x, 4 * g + i), OpAt(r, j), x)
  {
    Place(g, i);
    Schedule(g / 4, 4 * (g % 4) + i);
    hide Operation, OpAt;
  }

  /** MD5Transform: sixteen times the four lines that name the registers in turn. */
  method TransformBlock(s: State, block: seq<Byte>) returns (t: State)
    requires |block| == 64
    ensures t == Transform(s, block)
  {
    hide Line, OpAt, Operations, Add;
    var a, b, c, d := s.a, s.b, s.c, s.d;
    var words := Decode(block);
    var x := words[..];
    assert State(a, b, c, d) == Operations(s, x, 0) by { NoOperations(s, x); }
    for g := 0 to 16
      invariant State(a, b, c, d) == Operations(s, x, 4 * g)
    {
      var r, j := g / 4, 4 * (g % 4);
      NextOperation(s, x, g, 0);
      var op := OpAt(r, j);
      a := RunLine(r, a, b, c, d, x[op.k], op.s, Word(op.t));
      assert State(d, a, b, c) == Operations(s, x, 4 * g + 1);
      NextOperation(s, x, g, 1);
      op := OpAt(r, j + 1);
      d := RunLine(r, d, a, b, c, x[op.k], op.s, Word(op.t));
      assert State(c, d, a, b) == Operations(s, x, 4 * g + 2);
      NextOperation(s, x, g, 2);
      op := OpAt(r, j + 2);
      c := RunLine(r, c, d, a, b, x[op.k], op.s, Word(op.t));
      assert State(b, c, d, a) == Operations(s, x, 4 * g + 3);
      NextOperation(s, x, g, 3);
      op := OpAt(r, j + 3);
      b := RunLine(r, b, c, d, a, x[op.k], op.s, Word(op.t));
      assert State(a, b, c, d) == Operations(s, x, 4 * g + 4);
    }
    t := State(Add(s.a, a), Add(s.b, b), Add(s.c, c), Add(s.d, d));
  }

  lemma NoOperations(s: State, x: seq<Word>)
    requires |x| == 16
    ensures Operations(s, x, 0) == s
  {
  }

  /** The block loop of MD5Update, started when `done`, of `q` blocks, has been absorbed. */
  method TransformAll(s: State, input: seq<Byte>, buffered: nat, ghost done: seq<Byte>, ghost q: nat)
    returns (t: State, i: nat, ghost k: nat)
    requires buffered < 64 && 64 - buffered <= |input| && LoopFits(buffered, |input|)
    requires |done| == 64 * q && |done| % 64 == 0 && s == Absorb(done)
    ensures i == 64 - buffered + 64 * k <= |input| < i + 64
    ensures |done + input[64 - buffered..i]| % 64 == 0 && t == Absorb(done + input[64 - buffered..i])
  {
    hide Transform, Absorb;
    var len: u32 := |input|;
    hide LoopFits;
    t, i, k := s, 64 - buffered, 0;
    assert done + input[i..i] == done;
    GuardFits(buffered, len, 0);
    while Wrap32(i + 64) <= len
      invariant i == 64 - buffered + 64 * k <= len && i + 64 < 0x1_0000_0000
      invariant |done + input[64 - buffered..i]| == 64 * (q + k)
      invariant |done + input[64 - buffered..i]| % 64 == 0 && t == Absorb(done + input[64 - buffered..i])
    {
      var block := input[i..i + 64];
      AbsorbBlock(done + input[64 - buffered..i], block);
      assert done + input[64 - buffered..i] + block == done + input[64 - buffered..i + 64];
      t := TransformBlock(t, block);
      i := i + 64;
      k := k + 1;
      Multiple(q + k);
      GuardFits(buffered, len, k);
    }
  }

  /** What state and buffer stand for: the full blocks of the message, and the rest of it. */
  ghost predicate Holds(state: State, buffer: seq<Byte>, m: seq<Byte>) {
    && |m| % 64 <= |buffer|
    && state == Absorb(m[..|m| - |m| % 64])
    && buffer[..|m| % 64] == m[|m| - |m| % 64..]
  }

  /** Cutting a continued message after `i` bytes of the new input. */
  lemma Regroup(m: seq<Byte>, input: seq<Byte>, c: nat, p: nat, i: nat)
    requires c <= |m| && p <= i <= |input|
    ensures m[..c] + (m[c..] + input[..p]) + input[p..i] == (m + input)[..|m| + i]
    ensures (m + input)[|m| + i..] == input[i..]
  {
  }

  lemma Resumes(m: seq<Byte>, q: nat, state: State, buffer: seq<Byte>)
    requires 64 * q <= |m| < 64 * q + 64 && |buffer| == 64
    requires |m[..64 * q]| % 64 == 0 && state == Absorb(m[..64 * q])
    requires buffer[..|m| - 64 * q] == m[64 * q..]
    ensures Holds(state, buffer, m)
  {
    hide Absorb;
    assert |m| % 64 == |m| - 64 * q;
  }

  lemma Resumed(m: seq<Byte>, q: nat, state: State, buffer: seq<Byte>)
    requires Holds(state, buffer, m) && |buffer| == 64 && q == |m| / 64
    ensures |m| - 64 * q == |m| % 64 && |m[..64 * q]| % 64 == 0
    ensures state == Absorb(m[..64 * q]) && buffer[..|m| % 64] == m[64 * q..]
  {
    hide Absorb;
    assert |m| - |m| % 64 == 64 * q;
  }

  class Context {
    var lo: u32
    var hi: u32
    var state: State
    const buffer: array<Byte>
    ghost var message: seq<Byte>

    ghost function Buffered(): nat
      reads this
    {
      |message| % 64
    }

    ghost predicate Valid()
      reads this, buffer
    {
      && buffer.Length == 64
      && Counts(lo, hi, |message|)
      && Holds(state, buffer[..], message)
    }

    /** MD5Init */
    constructor ()
      ensures Valid() && fresh(buffer) && message == []
    {
      lo, hi := 0, 0;
      state := INIT;
      buffer := new Byte[64](_ => Byte(0));
      message := [];
    }

    /** MD5Update, when the input completes the buffered block. */
    method ConsumeBlocks(input: seq<Byte>, index: nat)
      requires buffer.Length == 64 && Holds(state, buffer[..], message) && index == Buffered()
      requires 64 - index <= |input| && LoopFits(index, |input|)
      modifies this`state, buffer
      ensures Holds(state, buffer[..], message + input)
    {
      hide Transform, Absorb, LoopFits;
      ghost var q := |message| / 64;
      Resumed(message, q, state, buffer[..]);
      hide Holds;
      var partlen := 64 - index;
      ghost var start, rest := message[..64 * q], message[64 * q..];
      CopyTo(buffer, index, input[..partlen]);
      assert buffer[..] == rest + input[..partlen];
      AbsorbBlock(start, buffer[..]);
      state := TransformBlock(state, buffer[..]);
      Multiple(q + 1);
      var i;
      ghost var k;
      state, i, k := TransformAll(state, input, index, start + buffer[..], q + 1);
      Regroup(message, input, 64 * q, partlen, i);
      CopyTo(buffer, 0, input[i..]);
      Resumes(message + input, q + 1 + k, state, buffer[..]);
    }

    /** MD5Update, when the input fits into the buffer. */
    method BufferOnly(input: seq<Byte>, index: nat)
      requires buffer.Length == 64 && Holds(state, buffer[..], message) && index == Buffered()
      requires |input| < 64 - index
      modifies buffer
      ensures Holds(state, buffer[..], message + input)
    {
      hide Absorb;
      ghost var q := |message| / 64;
      Resumed(message, q, state, buffer[..]);
      hide Holds;
      CopyTo(buffer, index, input);
      assert (message + input)[..64 * q] == message[..64 * q];
      assert (message + input)[64 * q..] == message[64 * q..] + input;
      Resumes(message + input, q, state, buffer[..]);
    }

    /** MD5Update */
    method Update(input: seq<Byte>)
      requires Valid() && LoopFits(Buffered(), |input|)
      modifies this, buffer
      ensures Valid() && message == old(message) + input
    {
      hide Holds, AddLow, AddHigh;
      var len: u32 := |input|;
      BufferedFromCounter(lo, hi, |message|);
      CounterAdds(lo, hi, |message|, len);
      var index := lo / 8 % 64;
      var partlen := 64 - index;
      lo, hi := AddLow(lo, len), AddHigh(lo, hi, len);
      if len >= partlen {
        ConsumeBlocks(input, index);
      } else {
        BufferOnly(input, index);
      }
      message := message + input;
    }

    /** MD5Final: pads, appends the length and reads out the state. */
    method Final() returns (digest: seq<Byte>)
      requires Valid()
      modifies this, buffer
      ensures Valid() && message == Padded(old(message)) && Buffered() == 0
      ensures digest == Digest(old(message))
    {
      hide Transform, Absorb, Holds, Bytes, PadLength;
      BufferedFromCounter(lo, hi, |message|);
      CounterWords(lo, hi, |message|);
      var index := lo / 8 % 64;
      var padlen := if index < 56 then 56 - index else 120 - index;
      PadLengthCases(|message|);
      var bits := Encode([ToWord(lo), ToWord(hi)]);
      hide Counts, LoopFits;
      ShortFits(Buffered(), padlen);
      Update(Padding(padlen));
      ShortFits(Buffered(), 8);
      Update(bits[..]);
      assert message == Padded(old(message));
      NothingBuffered(message, state, buffer[..]);
      var out := Encode([state.a, state.b, state.c, state.d]);
      digest := out[..];
    }
  }

  lemma NothingBuffered(m: seq<Byte>, state: State, buffer: seq<Byte>)
    requires Holds(state, buffer, m) && |m| % 64 == 0
    ensures state == Absorb(m)
  {
    hide Absorb;
    assert m[..|m|] == m;
  }

  lemma CounterWords(lo: u32, hi: u32, n: nat)
    requires Counts(lo, hi, n)
    ensures LengthBytes(n) == Bytes([ToWord(lo), ToWord(hi)])
  {
    hide Bytes;
    var bits := 8 * n % 0x1_0000_0000_0000_0000;
    assert bits % 0x1_0000_0000 == lo && bits / 0x1_0000_0000 == hi;
  }

  /** The two-case pad length of the code is the one of the standard. */
  lemma PadLengthCases(n: nat)
    ensures PadLength(n) == if n % 64 < 56 then 56 - n % 64 else 120 - n % 64
  {
  }

  lemma ShortFits(buffered: nat, len: nat)
    requires buffered < 64 && len < 0x1_0000_0000 - 64
    ensures LoopFits(buffered, len)
  {
  }

  /** MD5Encode */
  method Encode(input: seq<Word>) returns (output: array<Byte>)
    ensures fresh(output) && output[..] == Bytes(input)
  {
    hide Byte0, Byte1, Byte2, Byte3;
    var len := 4 * |input|;
    output := new Byte[len](_ => Byte(0));
    var i, j := 0, 0;
    while j < len
      invariant j == 4 * i <= len
      invariant output[..j] == Bytes(input[..i])
    {
      output[j] := Byte0(input[i]);
      output[j + 1] := Byte1(input[i]);
      output[j + 2] := Byte2(input[i]);
      output[j + 3] := Byte3(input[i]);
      assert output[..j + 4] == output[..j] + WordBytes(input[i]);
      assert input[..i + 1][..i] == input[..i];
      i := i + 1;
      j := j + 4;
    }
    assert input[..i] == input;
  }

  /** MD5Decode */
  method Decode(input: seq<Byte>) returns (output: array<Word>)
    requires |input| % 4 == 0
    ensures fresh(output) && output[..] == Words(input)
  {
    hide Joined;
    output := new Word[|input| / 4](_ => Word(0));
    var i, j := 0, 0;
    while j < |input|
      invariant j == 4 * i <= |input|
      invariant output[..i] == Words(input)[..i]
    {
      output[i] := Joined(input[j], input[j + 1], input[j + 2], input[j + 3]);
      i := i + 1;
      j := j + 4;
    }
  }

  function Concat(chunks: seq<seq<Byte>>): seq<Byte> {
    if chunks == [] then [] else Concat(chunks[..|chunks| - 1]) + chunks[|chunks| - 1]
  }

  /** However a message is cut into updates, the digest is that of the whole message. */
  method DigestOfChunks(chunks: seq<seq<Byte>>) returns (digest: seq<Byte>)
    requires forall c :: c in chunks ==> |c| < 0x1_0000_0000 - 64
    ensures digest == Digest(Concat(chunks))
  {
    var context := new Context();
    for n := 0 to |chunks|
      invariant context.Valid() && fresh(context) && fresh(context.buffer)
      invariant context.message == Concat(chunks[..n])
    {
      assert chunks[..n + 1][..n] == chunks[..n];
      assert chunks[n] in chunks;
      context.Update(chunks[n]);
    }
    assert chunks[..|chunks|] == chunks;
    digest := context.Final();
  }
}
