/** The YMODEM-1K sender against a standard receiver over a line that damages frames and answers. */
module Ymodem {
  import opened Common
  import opened Crc

  // ------------------------------------------------------------------
  // Frames, the line and the receiver

  /** A frame: block number and its complement, then the payload followed by its two CRC bytes. */
  datatype Frame = Frame(long: bool, number: u8, complement: u8, body: seq<Octet>)

  /** What send_block writes. */
  function MakeFrame(blknum: nat, payload: seq<Octet>): Frame {
    var c := Crc16(payload);
    Frame(|payload| == 1024, blknum % 256, 255 - blknum % 256, payload + [HighByte(c)] + [LowByte(c)])
  }

  /** A frame arrives whole, or not at all, or hit: its type byte swapped for the other one, its number
      and complement displaced modulo 256, and two adjacent bytes of its body changed by XOR patterns.
      The place in the body is counted round, so that a hit always lands; a zero pattern does nothing. */
  datatype Damage = Intact | Lost | Hit(flip: bool, dn: u8, dc: u8, at: nat, w0: Octet, w1: Octet)

  /** The sender reads the answer as given, misreads it as one of the two retry requests, reads nothing,
      or reads a cancellation. It never misreads anything as an acknowledgement. */
  datatype Echo = Faithful | AsNak | AsC | Silent | Cancelled

  datatype Noise = Noise(damage: Damage, echo: Echo)

  datatype Answer = Ack | Nak | C | Can | Nothing

  function HitBody(body: seq<Octet>, at: nat, w0: Octet, w1: Octet): seq<Octet> {
    if |body| < 2 then body
    else
      var k := at % (|body| - 1);
      body[..k] + [Sum8(body[k], w0), Sum8(body[k + 1], w1)] + body[k + 2..]
  }

  function Damaged(f: Frame, d: Damage): Option<Frame> {
    match d
    case Intact => Some(f)
    case Lost => None
    case Hit(flip, dn, dc, at, w0, w1) =>
      Some(Frame(f.long != flip, (f.number + dn) % 256, (f.complement + dc) % 256, HitBody(f.body, at, w0, w1)))
  }

  /** The payloads the receiver has accepted, in order; it waits for the block numbered next. */
  datatype Receiver = Receiver(blocks: seq<seq<Octet>>)

  predicate Genuine(f: Frame) {
    && f.number + f.complement == 255
    && |f.body| >= 2
    && var payload := f.body[..|f.body| - 2];
       var c := Crc16(payload);
       |payload| == (if f.long then 1024 else 128) && f.body[|payload|..] == [HighByte(c), LowByte(c)]
  }

  /** A genuine frame with the expected number is accepted, one with the previous number is only
      acknowledged again, anything else is refused. */
  function Respond(r: Receiver, f: Option<Frame>): (Receiver, Answer) {
    if f.None? || !Genuine(f.value) then (r, Nak)
    else if f.value.number == |r.blocks| % 256 then
      (Receiver(r.blocks + [f.value.body[..|f.value.body| - 2]]), Ack)
    else if r.blocks != [] && f.value.number == (|r.blocks| - 1) % 256 then (r, Ack)
    else (r, Nak)
  }

  function Heard(a: Answer, e: Echo): Answer {
    match e
    case Faithful => a
    case AsNak => Nak
    case AsC => C
    case Silent => Nothing
    case Cancelled => Can
  }

  /** The hit leaves body and type alone and moves number and complement by opposite amounts. */
  predicate Unnoticed(d: Damage) {
    d.Hit? && d.w0 == ZERO8 && d.w1 == ZERO8 && !d.flip && (d.dn + d.dc) % 256 == 0
  }

  /** A frame that was hit is taken for genuine exactly if the hit is of this kind. So damage to the body
      is always noticed, and so is damage to a single byte of the header. */
  lemma BurstRefused(f: Frame, d: Damage)
    requires Genuine(f) && d.Hit?
    ensures Genuine(Damaged(f, d).value) <==> Unnoticed(d)
    ensures Unnoticed(d) ==> Damaged(f, d).value.body == f.body
  {
    var g := Damaged(f, d).value;
    Opposite(f.number, f.complement, d.dn, d.dc);
    ChecksumZero(f);
    HitChangesChecksum(f.body, d.at, d.w0, d.w1);
    hide Crc16, HitBody;
    if g.body != f.body && Genuine(g) {
      ChecksumZero(g);
    }
  }

  /** A hit with a pattern changes the body and its checksum, one without changes nothing. */
  lemma HitChangesChecksum(body: seq<Octet>, at: nat, w0: Octet, w1: Octet)
    requires |body| >= 2
    ensures var g := HitBody(body, at, w0, w1);
            |g| == |body| && if w0 == ZERO8 && w1 == ZERO8 then g == body else g != body && Crc16(g) != Crc16(body)
  {
    var k := at % (|body| - 1);
    var before, w, after := body[..k], [body[k], body[k + 1]], body[k + 2..];
    var w' := [Sum8(body[k], w0), Sum8(body[k + 1], w1)];
    Unchanged8(body[k], w0);
    Unchanged8(body[k + 1], w1);
    hide Crc16, Sum8;
    assert body == before + w + after && HitBody(body, at, w0, w1) == before + w' + after;
    if w0 != ZERO8 || w1 != ZERO8 {
      assert w[0] != w'[0] || w[1] != w'[1];
      Crc16DetectsBurst(before, w, w', after);
    }
  }

  lemma Unchanged8(x: Octet, w: Octet)
    ensures Sum8(x, w) == x <==> w == ZERO8
  {
  }

  lemma Opposite(n: int, c: int, dn: int, dc: int)
    requires n + c == 255 && 0 <= n && 0 <= c && 0 <= dn < 256 && 0 <= dc < 256
    ensures (n + dn) % 256 + (c + dc) % 256 == 255 <==> (dn + dc) % 256 == 0
  {
  }

  lemma ChecksumZero(f: Frame)
    requires Genuine(f)
    ensures Crc16(f.body) == ZERO
  {
    hide Crc16;
    var payload := f.body[..|f.body| - 2];
    Crc16OfFrame(payload);
    assert f.body == payload + f.body[|payload|..];
    assert payload + [HighByte(Crc16(payload)), LowByte(Crc16(payload))]
           == payload + [HighByte(Crc16(payload))] + [LowByte(Crc16(payload))];
  }

  function Exchange(r: Receiver, f: Frame, n: Noise): (Receiver, Answer) {
    var (r', a) := Respond(r, Damaged(f, n.damage));
    (r', Heard(a, n.echo))
  }

  predicate BlockSize(payload: seq<Octet>) {
    |payload| == 128 || |payload| == 1024
  }

  lemma OwnFramesAreGenuine(blknum: nat, payload: seq<Octet>)
    requires BlockSize(payload)
    ensures Genuine(MakeFrame(blknum, payload))
    ensures var f := MakeFrame(blknum, payload); f.body[..|f.body| - 2] == payload
  {
    hide Crc16;
    var f := MakeFrame(blknum, payload);
    assert f.body[..|f.body| - 2] == payload;
  }

  predicate Moves(d: Damage, amount: u8) {
    Unnoticed(d) && d.dn == amount
  }

  /** The number of the frame moves unnoticed to that of the block the receiver took last, and the sender
      hears its answer; or to that of the block it waits for, when it has the frame's own already. */
  predicate Slips(r: Receiver, f: Frame, n: Noise) {
    r.blocks != [] &&
    if f.number == |r.blocks| % 256 then Moves(n.damage, 255) && n.echo.Faithful?
    else f.number == (|r.blocks| - 1) % 256 && Moves(n.damage, 1)
  }

  /** Noise that can never do so. */
  predicate Harmless(n: Noise) {
    !Moves(n.damage, 1) && !(Moves(n.damage, 255) && n.echo.Faithful?)
  }

  /** Where a displaced number stands to the one before and the one after. */
  lemma Displaced(k: nat, dn: nat)
    requires dn < 256
    ensures (k % 256 + dn) % 256 == k % 256 <==> dn == 0
    ensures (k % 256 + dn) % 256 == (k + 1) % 256 <==> dn == 1
    ensures k > 0 ==> ((k % 256 + dn) % 256 == (k - 1) % 256 <==> dn == 255)
  {
  }

  /** While block `|prefix|` is being sent the receiver holds the blocks before it, or those and the
      block itself; once the sender hears an acknowledgement it holds the block. */
  predicate InStep(prefix: seq<seq<Octet>>, payload: seq<Octet>, r: Receiver, a: Answer) {
    && (r.blocks == prefix || r.blocks == prefix + [payload])
    && (a.Ack? ==> r.blocks == prefix + [payload])
  }

  /** How far the number of a frame that is taken for genuine has moved; None if it is not. */
  function Moved(d: Damage): Option<u8> {
    if d.Intact? then Some(0) else if Unnoticed(d) then Some(d.dn) else None
  }

  lemma Arrival(blknum: nat, payload: seq<Octet>, d: Damage)
    requires BlockSize(payload)
    ensures var f := MakeFrame(blknum, payload);
            var g := Damaged(f, d);
            && f.number == blknum % 256
            && (Moved(d).Some? <==> g.Some? && Genuine(g.value))
            && (Moved(d).Some? ==> |g.value.body| >= 2 && g.value.body[..|g.value.body| - 2] == payload)
            && (Moved(d).Some? ==> g.value.number == (blknum % 256 + Moved(d).value) % 256)
  {
    var f := MakeFrame(blknum, payload);
    OwnFramesAreGenuine(blknum, payload);
    NumberOf(blknum, payload);
    hide MakeFrame, HitBody;
    if d.Hit? {
      BurstRefused(f, d);
    }
  }

  /** The outcome of an exchange in either state, by how far the number has moved. */
  lemma ExchangeResult(prefix: seq<seq<Octet>>, payload: seq<Octet>, held: bool, n: Noise)
    requires BlockSize(payload)
    ensures var r, f, m := Receiver(if held then prefix + [payload] else prefix), MakeFrame(|prefix|, payload), Moved(n.damage);
            && f.number == |prefix| % 256
            && Exchange(r, f, n) ==
               if m == Some(0) then (Receiver(prefix + [payload]), Heard(Ack, n.echo))
               else if held && m == Some(1) then (Receiver(prefix + [payload] + [payload]), Heard(Ack, n.echo))
               else if !held && prefix != [] && m == Some(255) then (r, Heard(Ack, n.echo))
               else (r, Heard(Nak, n.echo))
  {
    Arrival(|prefix|, payload, n.damage);
    hide Genuine, MakeFrame, Damaged, Moved;
    var g, m := Damaged(MakeFrame(|prefix|, payload), n.damage), Moved(n.damage);
    if m.None? {
      assert forall r :: Respond(r, g) == (r, Nak);
    } else {
      RespondWaiting(Receiver(prefix), g.value, payload, m.value);
      RespondHolding(Receiver(prefix + [payload]), g.value, payload, m.value);
    }
    hide Respond;
  }

  lemma RespondWaiting(r: Receiver, g: Frame, payload: seq<Octet>, m: u8)
    requires Genuine(g) && g.body[..|g.body| - 2] == payload && g.number == (|r.blocks| % 256 + m) % 256
    ensures Respond(r, Some(g)) ==
            if m == 0 then (Receiver(r.blocks + [payload]), Ack)
            else if r.blocks != [] && m == 255 then (r, Ack) else (r, Nak)
  {
    Displaced(|r.blocks|, m);
    hide Genuine;
  }

  lemma RespondHolding(r: Receiver, g: Frame, payload: seq<Octet>, m: u8)
    requires Genuine(g) && g.body[..|g.body| - 2] == payload
    requires r.blocks != [] && g.number == ((|r.blocks| - 1) % 256 + m) % 256
    ensures Respond(r, Some(g)) ==
            if m == 1 then (Receiver(r.blocks + [payload]), Ack) else if m == 0 then (r, Ack) else (r, Nak)
  {
    Displaced(|r.blocks| - 1, m);
    hide Genuine;
  }

  /** An exchange keeps the two in step if and only if it does not slip. */
  lemma ExchangeInStep(prefix: seq<seq<Octet>>, payload: seq<Octet>, r: Receiver, n: Noise)
    requires BlockSize(payload) && (r.blocks == prefix || r.blocks == prefix + [payload])
    ensures var f := MakeFrame(|prefix|, payload);
            InStep(prefix, payload, Exchange(r, f, n).0, Exchange(r, f, n).1) <==> !Slips(r, f, n)
  {
    ExchangeResult(prefix, payload, r.blocks != prefix, n);
    Displaced(|prefix|, 0);
    hide Exchange, MakeFrame, Unnoticed;
    assert |prefix + [payload]| == |prefix| + 1 && |prefix + [payload] + [payload]| == |prefix| + 2;
  }

  /** What a slip does: the receiver acknowledges a block it has not taken, or takes one twice. And noise
      that is not harmless makes every exchange after the first block slip, in one of the two states. */
  lemma HarmIsReal(prefix: seq<seq<Octet>>, payload: seq<Octet>, r: Receiver, n: Noise)
    requires BlockSize(payload) && (r.blocks == prefix || r.blocks == prefix + [payload])
    ensures var f := MakeFrame(|prefix|, payload);
            Slips(r, f, n) ==>
              Exchange(r, f, n) == if r.blocks == prefix then (r, Ack)
                                   else (Receiver(prefix + [payload] + [payload]), Heard(Ack, n.echo))
    ensures var f := MakeFrame(|prefix|, payload);
            prefix != [] && !Harmless(n) ==>
              Slips(Receiver(prefix), f, n) || Slips(Receiver(prefix + [payload]), f, n)
  {
    ExchangeResult(prefix, payload, r.blocks != prefix, n);
    Displaced(|prefix|, 0);
    hide Exchange, MakeFrame, Unnoticed;
    assert |prefix + [payload]| == |prefix| + 1;
  }

  /** A frame and its answer that both get through. */
  predicate Clean(n: Noise) {
    n.damage.Intact? && n.echo.Faithful?
  }

  /** Whatever happened to the frame, the sender hears something it answers by sending again. */
  predicate Retryable(n: Noise) {
    n.echo.Faithful? || n.echo.AsNak? || n.echo.AsC?
  }

  lemma ExchangeAnswer(prefix: seq<seq<Octet>>, payload: seq<Octet>, r: Receiver, n: Noise)
    requires BlockSize(payload) && (r.blocks == prefix || r.blocks == prefix + [payload])
    ensures var a := Exchange(r, MakeFrame(|prefix|, payload), n).1;
            (Clean(n) ==> a.Ack?) && (Retryable(n) ==> a.Ack? || a.Nak? || a.C?)
  {
    ExchangeResult(prefix, payload, r.blocks != prefix, n);
    hide Exchange, MakeFrame;
  }

  /** One of the first `tries` exchanges is clean and the ones before it can be retried. */
  ghost predicate GetsThrough(script: seq<Noise>, tries: nat) {
    exists k :: CleanAt(script, tries, k)
  }

  ghost predicate CleanAt(script: seq<Noise>, tries: nat, k: nat) {
    k < tries && k < |script| && Clean(script[k]) && forall j :: 0 <= j < k ==> Retryable(script[j])
  }

  lemma NumberOf(blknum: nat, payload: seq<Octet>)
    ensures MakeFrame(blknum, payload).number == blknum % 256
  {
  }

  // ------------------------------------------------------------------
  // What is sent: the header block and the data blocks

  const PAD: Octet := Octet(0x1a)

  function Digit(d: nat): Octet {
    if d == 0 then Octet(0x30) else if d == 1 then Octet(0x31) else if d == 2 then Octet(0x32)
    else if d == 3 then Octet(0x33) else if d == 4 then Octet(0x34) else if d == 5 then Octet(0x35)
    else if d == 6 then Octet(0x36) else if d == 7 then Octet(0x37) else if d == 8 then Octet(0x38)
    else Octet(0x39)
  }

  function DigitValue(o: Octet): nat {
    if o == Octet(0x30) then 0 else if o == Octet(0x31) then 1 else if o == Octet(0x32) then 2
    else if o == Octet(0x33) then 3 else if o == Octet(0x34) then 4 else if o == Octet(0x35) then 5
    else if o == Octet(0x36) then 6 else if o == Octet(0x37) then 7 else if o == Octet(0x38) then 8
    else 9
  }

  function Decimal(n: nat): seq<Octet> {
    if n < 10 then [Digit(n)] else Decimal(n / 10) + [Digit(n % 10)]
  }

  function Value(ds: seq<Octet>): nat {
    if ds == [] then 0 else 10 * Value(ds[..|ds| - 1]) + DigitValue(ds[|ds| - 1])
  }

  /** Most significant digit first, as ASCII. */
  lemma DecimalExample()
    ensures Decimal(19305) == [Octet(0x31), Octet(0x39), Octet(0x33), Octet(0x30), Octet(0x35)]
  {
    assert Decimal(19) == [Octet(0x31), Octet(0x39)];
    assert Decimal(193) == Decimal(19) + [Octet(0x33)];
    assert Decimal(1930) == Decimal(193) + [Octet(0x30)];
  }

  lemma DigitRoundTrip(d: nat)
    requires d < 10
    ensures DigitValue(Digit(d)) == d && Digit(d) != ZERO8
  {
  }

  lemma {:induction false} DecimalRoundTrip(n: nat)
    ensures Value(Decimal(n)) == n && ZERO8 !in Decimal(n)
  {
    hide Digit, DigitValue;
    if n < 10 {
      DigitRoundTrip(n);
      assert Decimal(n)[..0] == [];
    } else {
      DigitRoundTrip(n % 10);
      DecimalRoundTrip(n / 10);
      assert Decimal(n)[..|Decimal(n)| - 1] == Decimal(n / 10);
    }
  }

  function Header(name: seq<Octet>, size: nat): seq<Octet> {
    name + [ZERO8] + Decimal(size) + [ZERO8]
  }

  /** Block 0, filled up with zeros to the next block size. */
  function HeaderBlock(name: seq<Octet>, size: nat): (b: seq<Octet>)
    requires |Header(name, size)| <= 1024
    ensures |b| == if |Header(name, size)| <= 128 then 128 else 1024
  {
    var h := Header(name, size);
    h + seq((if |h| <= 128 then 128 else 1024) - |h|, _ => ZERO8)
  }

  /** Up to the first zero byte. */
  function UntilZero(s: seq<Octet>): (r: seq<Octet>)
    ensures |r| <= |s|
  {
    if s == [] || s[0] == ZERO8 then [] else [s[0]] + UntilZero(s[1..])
  }

  lemma {:induction false} UntilZeroStops(a: seq<Octet>, b: seq<Octet>)
    requires ZERO8 !in a
    ensures UntilZero(a + [ZERO8] + b) == a
  {
    if a != [] {
      UntilZeroStops(a[1..], b);
      assert (a + [ZERO8] + b)[1..] == a[1..] + [ZERO8] + b;
    }
  }

  /** The file size a receiver reads out of block 0. */
  function SizeIn(b: seq<Octet>): nat {
    var n := |UntilZero(b)|;
    if n < |b| then Value(UntilZero(b[n + 1..])) else 0
  }

  /** The receiver reads back the size that was sent, whatever the file is called. */
  lemma SizeRoundTrip(name: seq<Octet>, size: nat)
    requires ZERO8 !in name && |Header(name, size)| <= 1024
    ensures SizeIn(HeaderBlock(name, size)) == size
  {
    hide Value, Decimal;
    var b := HeaderBlock(name, size);
    var zeros := b[|Header(name, size)|..];
    var rest := Decimal(size) + [ZERO8] + zeros;
    assert b == name + [ZERO8] + rest;
    UntilZeroStops(name, rest);
    DecimalRoundTrip(size);
    UntilZeroStops(Decimal(size), zeros);
    assert b[|name| + 1..] == rest;
  }

  /** And the name. */
  lemma NameRoundTrip(name: seq<Octet>, size: nat)
    requires ZERO8 !in name && |Header(name, size)| <= 1024
    ensures UntilZero(HeaderBlock(name, size)) == name
  {
    hide Decimal;
    var b := HeaderBlock(name, size);
    assert b == name + [ZERO8] + b[|name| + 1..];
    UntilZeroStops(name, b[|name| + 1..]);
  }

  function BlockCount(size: nat): nat {
    (size + 1023) / 1024
  }

  /** Data block `i`: the i-th kilobyte, the last one filled up. */
  function DataBlock(data: seq<Octet>, i: nat): (b: seq<Octet>)
    requires i < BlockCount(|data|)
    ensures |b| == 1024
  {
    var chunk := data[1024 * i..if 1024 * (i + 1) <= |data| then 1024 * (i + 1) else |data|];
    chunk + seq(1024 - |chunk|, _ => PAD)
  }

  function DataBlocks(data: seq<Octet>, n: nat): (bs: seq<seq<Octet>>)
    requires n <= BlockCount(|data|)
    ensures |bs| == n
  {
    if n == 0 then [] else DataBlocks(data, n - 1) + [DataBlock(data, n - 1)]
  }

  function Join(bs: seq<seq<Octet>>): seq<Octet> {
    if bs == [] then [] else Join(bs[..|bs| - 1]) + bs[|bs| - 1]
  }

  /** How much of the file the first `n` blocks cover. */
  function Covered(size: nat, n: nat): nat {
    if 1024 * n <= size then 1024 * n else size
  }

  lemma LastBlock(data: seq<Octet>, n: nat)
    requires n < BlockCount(|data|)
    ensures 1024 * n <= Covered(|data|, n + 1) <= 1024 * (n + 1)
    ensures DataBlock(data, n)[..Covered(|data|, n + 1) - 1024 * n] == data[1024 * n..Covered(|data|, n + 1)]
    ensures forall i :: Covered(|data|, n + 1) - 1024 * n <= i < 1024 ==> DataBlock(data, n)[i] == Octet(0x1a)
  {
  }

  lemma Appended(j: seq<Octet>, b: seq<Octet>, data: seq<Octet>, m: nat)
    requires |j| <= m <= |data| && j == data[..|j|] && m - |j| <= |b| && b[..m - |j|] == data[|j|..m]
    ensures (j + b)[..m] == data[..m]
  {
    assert (j + b)[..m] == j + b[..m - |j|];
    assert data[..m] == data[..|j|] + data[|j|..m];
  }

  lemma {:induction false} JoinBlocks(data: seq<Octet>, n: nat)
    requires n <= BlockCount(|data|)
    ensures |Join(DataBlocks(data, n))| == 1024 * n
    ensures Join(DataBlocks(data, n))[..Covered(|data|, n)] == data[..Covered(|data|, n)]
  {
    hide DataBlock;
    if n > 0 {
      JoinBlocks(data, n - 1);
      LastBlock(data, n - 1);
      var j, b := Join(DataBlocks(data, n - 1)), DataBlock(data, n - 1);
      assert DataBlocks(data, n)[..n - 1] == DataBlocks(data, n - 1);
      assert Join(DataBlocks(data, n)) == j + b;
      assert Covered(|data|, n - 1) == 1024 * (n - 1) && j[..|j|] == j;
      hide Join, DataBlocks, BlockCount;
      Appended(j, b, data, Covered(|data|, n));
    }
  }

  /** What the receiver makes of the blocks of one file. */
  function FileIn(bs: seq<seq<Octet>>): seq<Octet>
    requires bs != []
  {
    var all := Join(bs[1..]);
    if SizeIn(bs[0]) <= |all| then all[..SizeIn(bs[0])] else all
  }

  function AllBlocks(name: seq<Octet>, data: seq<Octet>, n: nat): seq<seq<Octet>>
    requires |Header(name, |data|)| <= 1024 && n <= BlockCount(|data|)
  {
    [HeaderBlock(name, |data|)] + DataBlocks(data, n)
  }

  /** The blocks of a file stand for that file, whatever its size. */
  lemma BlocksHoldFile(name: seq<Octet>, data: seq<Octet>)
    requires ZERO8 !in name && |Header(name, |data|)| <= 1024
    ensures FileIn(AllBlocks(name, data, BlockCount(|data|))) == data
  {
    hide SizeIn, HeaderBlock;
    var n := BlockCount(|data|);
    var bs := AllBlocks(name, data, n);
    assert bs[1..] == DataBlocks(data, n);
    SizeRoundTrip(name, |data|);
    JoinBlocks(data, n);
    assert data[..|data|] == data;
  }

  const BACK_BY_ONE: Noise := Noise(Hit(false, 255, 1, 0, ZERO8, ZERO8), Faithful)

  /** A slip on the last data block of any file: the sender hears an acknowledgement for it, and what the
      receiver holds for the end mark to close is not the file. */
  lemma TruncatedFile(name: seq<Octet>, data: seq<Octet>)
    requires ZERO8 !in name && |Header(name, |data|)| <= 1024 && data != []
    ensures var k := BlockCount(|data|) - 1;
            var r := Receiver(AllBlocks(name, data, k));
            && Exchange(r, MakeFrame(k + 1, DataBlock(data, k)), BACK_BY_ONE) == (r, Ack)
            && FileIn(r.blocks) != data
  {
    var k := BlockCount(|data|) - 1;
    var blocks := AllBlocks(name, data, k);
    NumberOf(k + 1, DataBlock(data, k));
    hide SizeIn, HeaderBlock, MakeFrame, DataBlock, Exchange;
    HarmIsReal(blocks, DataBlock(data, k), Receiver(blocks), BACK_BY_ONE);
    assert blocks[1..] == DataBlocks(data, k);
    SizeRoundTrip(name, |data|);
    JoinBlocks(data, k);
  }

  // ------------------------------------------------------------------
  // The sender

  datatype Outcome = Done | Timeout | Aborted | TooManyRetries

  /** `sent` is made of the given frames, in order, each repeated between once and `tries` times. */
  ghost predicate InRuns(sent: seq<Frame>, frames: seq<Frame>, tries: nat)
    decreases |frames|, 1
  {
    if frames == [] then sent == []
    else exists r :: RunAtEnd(sent, frames, tries, r)
  }

  ghost predicate RunAtEnd(sent: seq<Frame>, frames: seq<Frame>, tries: nat, r: nat)
    requires frames != []
    decreases |frames|, 0
  {
    && 1 <= r <= tries && r <= |sent|
    && (forall i :: |sent| - r <= i < |sent| ==> sent[i] == frames[|frames| - 1])
    && InRuns(sent[..|sent| - r], frames[..|frames| - 1], tries)
  }

  lemma OneMoreRun(before: seq<Frame>, sent: seq<Frame>, frames: seq<Frame>, f: Frame, tries: nat)
    requires InRuns(before, frames, tries) && before <= sent && |before| < |sent| <= |before| + tries
    requires forall i :: |before| <= i < |sent| ==> sent[i] == f
    ensures InRuns(sent, frames + [f], tries)
  {
    var r := |sent| - |before|;
    assert sent[..|sent| - r] == before;
    assert (frames + [f])[..|frames + [f]| - 1] == frames;
    assert RunAtEnd(sent, frames + [f], tries, r);
  }

  /** The frames of a session: block 0, the data blocks numbered from 1, and the closing empty block 0. */
  function DataFrames(name: seq<Octet>, data: seq<Octet>, n: nat): seq<Frame>
    requires |Header(name, |data|)| <= 1024 && n <= BlockCount(|data|)
  {
    if n == 0 then [MakeFrame(0, HeaderBlock(name, |data|))]
    else DataFrames(name, data, n - 1) + [MakeFrame(n, DataBlock(data, n - 1))]
  }

  const EMPTY_BLOCK: seq<Octet> := seq(128, _ => ZERO8)

  /** At least `n` exchanges to come, all of them clean. */
  ghost predicate Quiet(script: seq<Noise>, n: nat) {
    n <= |script| && forall j :: 0 <= j < |script| ==> Clean(script[j])
  }

  lemma QuietTail(script: seq<Noise>, n: nat)
    requires Quiet(script, n + 1)
    ensures script != [] && Clean(script[0]) && script[0].echo.Faithful? && Quiet(script[1..], n)
  {
  }

  ghost predicate Tame(script: seq<Noise>) {
    forall j :: 0 <= j < |script| ==> Harmless(script[j])
  }

  /** The serial line with the receiver at its far end; `script` decides what the line does next. */
  class Line {
    var receiver: Receiver
    var script: seq<Noise>
    var sent: seq<Frame>
    /** How many end marks the receiver will still refuse; refusing the first one is customary. */
    var refusals: nat
    /** The blocks of the file the receiver has closed. */
    var closed: Option<seq<seq<Octet>>>
    /** Whether some exchange has slipped. */
    var slipped: bool

    constructor (script: seq<Noise>, refusals: nat)
      ensures receiver.blocks == [] && sent == [] && closed.None? && !slipped
      ensures this.script == script && this.refusals == refusals
    {
      receiver, sent, closed, slipped := Receiver([]), [], None, false;
      this.script, this.refusals := script, refusals;
    }

    /** One write and the wait for its answer; a line whose script has run out stays silent. */
    method Transmit(f: Frame) returns (a: Answer)
      modifies this`receiver, this`script, this`sent, this`slipped
      ensures sent == old(sent) + [f]
      ensures old(script) == [] ==>
                a.Nothing? && receiver == old(receiver) && script == [] && slipped == old(slipped)
      ensures old(script) != [] ==>
                && (receiver, a) == Exchange(old(receiver), f, old(script)[0]) && script == old(script)[1..]
                && slipped == (old(slipped) || Slips(old(receiver), f, old(script)[0]))
    {
      sent := sent + [f];
      if script == [] {
        return Nothing;
      }
      slipped := slipped || Slips(receiver, f, script[0]);
      var (r, heard) := Exchange(receiver, f, script[0]);
      receiver, a, script := r, heard, script[1..];
    }

    /** wait_for with 'C' as the only byte wanted. */
    method AwaitPrompt() returns (ok: bool)
      modifies this`script
      ensures ok <==> old(script) != [] && old(script)[0].echo.Faithful?
      ensures script == if old(script) == [] then [] else old(script)[1..]
      ensures Tame(old(script)) ==> Tame(script)
    {
      ok := script != [] && script[0].echo.Faithful?;
      if script != [] {
        script := script[1..];
      }
    }

    /** send_block */
    method SendBlock(tries: nat, payload: seq<Octet>, ghost prefix: seq<seq<Octet>>, blknum: nat)
      returns (o: Outcome)
      requires BlockSize(payload) && blknum == |prefix| && (!slipped ==> receiver.blocks == prefix)
      modifies this`receiver, this`script, this`sent, this`slipped
      ensures old(sent) <= sent && |sent| <= |old(sent)| + tries
      ensures forall i :: |old(sent)| <= i < |sent| ==> sent[i] == MakeFrame(blknum, payload)
      ensures o.Done? ==> |sent| > |old(sent)|
      ensures o.TooManyRetries? ==> |sent| == |old(sent)| + tries
      ensures 0 < tries && old(script) != [] && old(script)[0].echo.Cancelled? ==>
                o.Aborted? && |sent| == |old(sent)| + 1
      ensures 0 < tries && (old(script) == [] || old(script)[0].echo.Silent?) ==>
                o.Timeout? && |sent| == |old(sent)| + 1
      ensures o.Done? && !slipped ==> receiver.blocks == prefix + [payload]
      ensures GetsThrough(old(script), tries) && !slipped ==> o.Done?
      ensures old(slipped) ==> slipped
      ensures Tame(old(script)) ==> Tame(script) && slipped == old(slipped)
      ensures 0 < tries && old(script) != [] && Clean(old(script)[0]) && !old(slipped) ==>
                o.Done? && script == old(script)[1..] && !slipped
    {
      hide MakeFrame, Exchange, Clean, Retryable, Harmless, Slips;
      var frame := MakeFrame(blknum, payload);
      assert 0 < tries && script != [] && Clean(script[0]) ==> CleanAt(script, tries, 0);
      var t := 0;
      while t < tries
        invariant 0 <= t <= tries && old(sent) <= sent && |sent| == |old(sent)| + t
        invariant forall i :: |old(sent)| <= i < |sent| ==> sent[i] == frame
        invariant !slipped ==> receiver.blocks == prefix || receiver.blocks == prefix + [payload]
        invariant t <= |old(script)| ==> script == old(script)[t..]
        invariant !slipped ==> forall k :: CleanAt(old(script), tries, k) ==> t <= k
        invariant old(slipped) ==> slipped
        invariant t == 0 ==> slipped == old(slipped)
        invariant t > 0 ==> old(script) == [] || !Clean(old(script)[0]) || old(slipped)
        invariant t > 0 ==> old(script) != [] && !old(script)[0].echo.Cancelled? && !old(script)[0].echo.Silent?
        invariant Tame(old(script)) ==> Tame(script) && slipped == old(slipped)
      {
        if script != [] && !slipped {
          ExchangeInStep(prefix, payload, receiver, script[0]);
          ExchangeAnswer(prefix, payload, receiver, script[0]);
        }
        assert t < |old(script)| ==> script[0] == old(script)[t] && script[1..] == old(script)[t + 1..];
        if script != [] {
          HarmlessNeverSlips(receiver, frame, script[0]);
          HeardAs(receiver, frame, script[0]);
        }
        var r := Transmit(frame);
        t := t + 1;
        if r.Ack? {
          return Done;
        }
        if r.Can? {
          return Aborted;
        }
        if r.Nothing? {
          return Timeout;
        }
      }
      o := TooManyRetries;
    }

    /** Writing the end mark once; the receiver closes the file when it accepts one, and goes on
        acknowledging the ones after it. */
    method TransmitEnd(ghost blocks: seq<seq<Octet>>) returns (a: Answer)
      requires Closing(blocks)
      modifies this`receiver, this`script, this`closed, this`refusals
      ensures Closing(blocks) && (a.Ack? ==> closed.Some?)
      ensures script == if old(script) == [] then [] else old(script)[1..]
      ensures Tame(old(script)) ==> Tame(script)
      ensures old(script) != [] && Clean(old(script)[0]) ==>
                if old(refusals) == 0 then a.Ack? else a.Nak? && refusals == old(refusals) - 1
    {
      if script == [] {
        return Nothing;
      }
      var n := script[0];
      script := script[1..];
      a := Nak;
      if n.damage.Intact? {
        if refusals > 0 {
          refusals := refusals - 1;
        } else {
          if closed.None? {
            closed, receiver := Some(receiver.blocks), Receiver([]);
          }
          a := Ack;
        }
      }
      a := Heard(a, n.echo);
    }

    /** The receiver still holds `blocks`, or has closed the file with exactly these. */
    ghost predicate Closing(blocks: seq<seq<Octet>>)
      reads this
    {
      || (closed.None? && receiver.blocks == blocks)
      || (closed == Some(blocks) && receiver.blocks == [])
    }

    /** The session in `main`. Unless an exchange slips, a file the receiver closes is the one sent and the
        sender reports success only if there is one; it does so on every line without disturbances. */
    method SendFile(tries: nat, name: seq<Octet>, data: seq<Octet>) returns (o: Outcome)
      requires ZERO8 !in name && |Header(name, |data|)| <= 1024
      requires receiver.blocks == [] && sent == [] && closed.None? && !slipped
      modifies this
      ensures closed.Some? && !slipped ==> closed.value != [] && FileIn(closed.value) == data
      ensures o.Done? ==> closed.Some?
      ensures o.Done? ==>
                InRuns(sent, DataFrames(name, data, BlockCount(|data|)) + [MakeFrame(0, EMPTY_BLOCK)], tries)
      ensures Tame(old(script)) ==> !slipped
      ensures 0 < tries && old(refusals) <= 1 && Quiet(old(script), BlockCount(|data|) + 7) ==> o.Done? && !slipped
    {
      hide MakeFrame, HeaderBlock, DataBlock, FileIn, InRuns, Header, Tame, Quiet;
      ghost var calm := 0 < tries && refusals <= 1 && Quiet(script, BlockCount(|data|) + 7);
      o := SendHeader(tries, name, data, calm);
      if !o.Done? {
        return;
      }
      o := SendData(tries, name, data, calm);
      if !o.Done? {
        return;
      }
      BlocksHoldFile(name, data);
      ghost var before := sent;
      o := Close(tries, calm);
      if o.Done? {
        OneMoreRun(before, sent, DataFrames(name, data, BlockCount(|data|)), MakeFrame(0, EMPTY_BLOCK), tries);
      }
    }

    /** The session after the data: the end mark, once more if it is refused, and the empty block. */
    method Close(tries: nat, ghost calm: bool) returns (o: Outcome)
      requires closed.None?
      requires calm ==> 0 < tries && !slipped && refusals <= 1 && Quiet(script, 4)
      modifies this
      ensures closed.Some? ==> closed.value == old(receiver.blocks)
      ensures o.Done? ==> closed.Some? && old(sent) < sent && |sent| <= |old(sent)| + tries
      ensures forall i :: |old(sent)| <= i < |sent| ==> sent[i] == MakeFrame(0, EMPTY_BLOCK)
      ensures old(slipped) ==> slipped
      ensures Tame(old(script)) ==> slipped == old(slipped)
      ensures calm ==> o.Done? && !slipped
    {
      hide MakeFrame, GetsThrough, Tame, Quiet, Clean;
      ghost var blocks := receiver.blocks;
      if calm {
        QuietTail(script, 3);
        QuietTail(script[1..], 2);
        QuietTail(script[1..][1..], 1);
        QuietTail(script[1..][1..][1..], 0);
      }
      var r := TransmitEnd(blocks);
      if r.Nak? {
        r := TransmitEnd(blocks);
      }
      if !r.Ack? {
        return Timeout;
      }
      var ok := AwaitPrompt();
      if !ok {
        return Timeout;
      }
      o := SendBlock(tries, EMPTY_BLOCK, [], 0);
    }

    /** The session up to the data. */
    method SendHeader(tries: nat, name: seq<Octet>, data: seq<Octet>, ghost calm: bool) returns (o: Outcome)
      requires |Header(name, |data|)| <= 1024 && receiver.blocks == [] && sent == [] && !slipped
      requires calm ==> 0 < tries && Quiet(script, BlockCount(|data|) + 7)
      modifies this`receiver, this`script, this`sent, this`slipped
      ensures o.Done? ==> InRuns(sent, DataFrames(name, data, 0), tries)
      ensures o.Done? && !slipped ==> receiver.blocks == AllBlocks(name, data, 0)
      ensures Tame(old(script)) ==> Tame(script) && !slipped
      ensures calm ==> o.Done? && !slipped && Quiet(script, BlockCount(|data|) + 4)
    {
      hide MakeFrame, HeaderBlock, InRuns, Header, GetsThrough, Tame, Quiet, Clean;
      assert InRuns([], [], tries) by { NoRuns(tries); }
      var hdr := HeaderBlock(name, |data|);
      if calm {
        QuietTail(script, BlockCount(|data|) + 6);
        QuietTail(script[1..], BlockCount(|data|) + 5);
        QuietTail(script[1..][1..], BlockCount(|data|) + 4);
      }
      var ok := AwaitPrompt();
      if !ok {
        return Timeout;
      }
      o := SendBlock(tries, hdr, [], 0);
      if !o.Done? {
        return;
      }
      OneMoreRun([], sent, [], MakeFrame(0, hdr), tries);
      assert [] + [MakeFrame(0, hdr)] == DataFrames(name, data, 0);
      assert [] + [hdr] == AllBlocks(name, data, 0);
      ok := AwaitPrompt();
      if !ok {
        return Timeout;
      }
    }

    /** The data loop of the session. */
    method SendData(tries: nat, name: seq<Octet>, data: seq<Octet>, ghost calm: bool) returns (o: Outcome)
      requires |Header(name, |data|)| <= 1024 && InRuns(sent, DataFrames(name, data, 0), tries)
      requires !slipped ==> receiver.blocks == AllBlocks(name, data, 0)
      requires calm ==> 0 < tries && !slipped && Quiet(script, BlockCount(|data|) + 4)
      modifies this`receiver, this`script, this`sent, this`slipped
      ensures old(slipped) ==> slipped
      ensures o.Done? && !slipped ==> receiver.blocks == AllBlocks(name, data, BlockCount(|data|))
      ensures o.Done? ==> InRuns(sent, DataFrames(name, data, BlockCount(|data|)), tries)
      ensures Tame(old(script)) ==> Tame(script) && slipped == old(slipped)
      ensures calm ==> o.Done? && !slipped && Quiet(script, 4)
    {
      hide MakeFrame, HeaderBlock, DataBlock, InRuns, Header, GetsThrough, Tame, Quiet, Clean;
      var i := 0;
      while i < BlockCount(|data|)
        invariant 0 <= i <= BlockCount(|data|) && (old(slipped) ==> slipped)
        invariant !slipped ==> receiver.blocks == AllBlocks(name, data, i)
        invariant InRuns(sent, DataFrames(name, data, i), tries)
        invariant Tame(old(script)) ==> Tame(script) && slipped == old(slipped)
        invariant calm ==> !slipped && Quiet(script, BlockCount(|data|) - i + 4)
      {
        ghost var before := sent;
        if calm {
          QuietTail(script, BlockCount(|data|) - i + 3);
        }
        o := SendBlock(tries, DataBlock(data, i), AllBlocks(name, data, i), i + 1);
        if !o.Done? {
          return;
        }
        OneMoreRun(before, sent, DataFrames(name, data, i), MakeFrame(i + 1, DataBlock(data, i)), tries);
        assert AllBlocks(name, data, i) + [DataBlock(data, i)] == AllBlocks(name, data, i + 1);
        i := i + 1;
      }
      o := Done;
    }
  }

  /** A whole session with the receiver it talks to, on any line: what that receiver ends up with, and
      whether an exchange slipped. */
  method Session(tries: nat, name: seq<Octet>, data: seq<Octet>, script: seq<Noise>, refusals: nat)
    returns (o: Outcome, file: Option<seq<Octet>>, slipped: bool)
    requires ZERO8 !in name && |Header(name, |data|)| <= 1024
    ensures !slipped ==> file.None? || file == Some(data)
    ensures !slipped && o.Done? ==> file == Some(data)
    ensures Tame(script) ==> !slipped
    ensures 0 < tries && refusals <= 1 && Quiet(script, BlockCount(|data|) + 7) ==> o.Done? && !slipped
  {
    hide FileIn, Header, Quiet, InRuns, Tame;
    var line := new Line(script, refusals);
    o := line.SendFile(tries, name, data);
    slipped := line.slipped;
    file := if line.closed.Some? && line.closed.value != [] then Some(FileIn(line.closed.value)) else None;
  }

  lemma HarmlessNeverSlips(r: Receiver, f: Frame, n: Noise)
    ensures Harmless(n) || Clean(n) ==> !Slips(r, f, n)
  {
  }

  lemma HeardAs(r: Receiver, f: Frame, n: Noise)
    ensures var a := Exchange(r, f, n).1; (n.echo.Cancelled? ==> a.Can?) && (n.echo.Silent? ==> a.Nothing?)
  {
  }

  lemma NoRuns(tries: nat)
    ensures InRuns([], [], tries)
  {
  }
}
