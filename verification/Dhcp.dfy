/** Setting the broadcast flag of a DHCP request in place, with an incremental UDP checksum update. */
module Dhcp {
  import opened Common

  const UDP_CHECK: nat := 6      // offset of the checksum in the UDP datagram
  const FLAGS: nat := 18         // offset of the DHCP flags in the UDP datagram
  const COOKIE: nat := 244       // offset of the DHCP magic cookie in the UDP datagram

  /** What a byte counts for in the sum of big-endian 16-bit words, odd lengths padded with a zero. */
  function Weight(i: nat): nat {
    if i % 2 == 0 then 256 else 1
  }

  function WordSum(b: seq<u8>): nat {
    if b == [] then 0 else WordSum(b[..|b| - 1]) + Weight(|b| - 1) * b[|b| - 1]
  }

  /** The 16-bit word at an offset, in network order. */
  function Word(b: seq<u8>, i: nat): u16
    requires i + 1 < |b|
  {
    var first: int, second: int := b[i], b[i + 1];
    256 * first + second
  }

  /** The same two bytes as the little-endian host loads them. */
  function HostWord(b: seq<u8>, i: nat): u16
    requires i + 1 < |b|
  {
    var first: int, second: int := b[i], b[i + 1];
    first + 256 * second
  }

  /** A UDP checksum holds when the one's complement sum over pseudo-header and datagram is zero. */
  predicate ChecksumHolds(pseudo: nat, udp: seq<u8>) {
    (pseudo + WordSum(udp)) % 0xffff == 0
  }

  /** A receiver does not look at a checksum that is absent. */
  predicate Acceptable(pseudo: nat, udp: seq<u8>)
    requires |udp| >= 8
  {
    Word(udp, UDP_CHECK) == 0 || ChecksumHolds(pseudo, udp)
  }

  /** The end-around carry loop. */
  function Fold(x: nat): nat {
    if x < 0x1_0000 then x else Fold(x % 0x1_0000 + x / 0x1_0000)
  }

  lemma {:induction false} FoldSubtracts(x: nat) returns (q: nat)
    ensures Fold(x) == x - 0xffff * q && Fold(x) < 0x1_0000
    decreases x
  {
    if x < 0x1_0000 {
      q := 0;
    } else {
      var r := FoldSubtracts(x % 0x1_0000 + x / 0x1_0000);
      q := r + x / 0x1_0000;
    }
  }

  /** The new checksum in host order, computed from the old one and the new flags word. */
  function NewCheck(udp: seq<u8>): u16
    requires |udp| >= 20 && udp[FLAGS] < 0x80
  {
    var check: int, flags: int := HostWord(udp, UDP_CHECK), HostWord(udp, FLAGS);
    0xffff - Fold(0xffff - check + (flags + 0x80)) % 0x1_0000
  }

  /** The datagram after the patch: broadcast bit set, checksum updated. */
  function Patched(udp: seq<u8>): seq<u8>
    requires |udp| >= 20 && udp[FLAGS] < 0x80
  {
    udp[FLAGS := udp[FLAGS] + 0x80][UDP_CHECK := NewCheck(udp) % 256][UDP_CHECK + 1 := NewCheck(udp) / 256]
  }

  lemma NewCheckValue(udp: seq<u8>) returns (q: nat)
    requires |udp| >= 20 && udp[FLAGS] < 0x80
    ensures NewCheck(udp) == HostWord(udp, UDP_CHECK) - (HostWord(udp, FLAGS) + 0x80) + 0xffff * q
  {
    hide Fold, HostWord;
    var check: int, flags: int := HostWord(udp, UDP_CHECK), HostWord(udp, FLAGS);
    q := FoldSubtracts(0xffff - check + (flags + 0x80));
  }

  lemma {:induction false} WordSumUpdate(b: seq<u8>, i: nat, x: u8)
    requires i < |b|
    ensures WordSum(b[i := x]) == WordSum(b) + Weight(i) * (x - b[i])
  {
    hide Weight;
    var init := b[..|b| - 1];
    if i < |init| {
      WordSumUpdate(init, i, x);
      assert b[i := x][..|b| - 1] == init[i := x];
    } else {
      assert b[i := x][..|b| - 1] == init;
    }
  }

  lemma SameRemainder(x: int, k: int)
    ensures (x + 0xffff * k) % 0xffff == x % 0xffff
  {
  }

  lemma ThreeUpdates(udp: seq<u8>, flag: u8, lo: u8, hi: u8)
    requires |udp| >= 20
    ensures WordSum(udp[FLAGS := flag][UDP_CHECK := lo][UDP_CHECK + 1 := hi]) ==
            WordSum(udp) + 256 * (flag - udp[FLAGS]) + 256 * (lo - udp[UDP_CHECK]) + (hi - udp[UDP_CHECK + 1])
  {
    hide WordSum;
    WordSumUpdate(udp, FLAGS, flag);
    WordSumUpdate(udp[FLAGS := flag], UDP_CHECK, lo);
    WordSumUpdate(udp[FLAGS := flag][UDP_CHECK := lo], UDP_CHECK + 1, hi);
  }

  lemma PatchedSum(udp: seq<u8>) returns (k: int)
    requires |udp| >= 20 && udp[FLAGS] < 0x80
    ensures WordSum(Patched(udp)) == WordSum(udp) - Word(udp, FLAGS) + 0xffff * k
  {
    hide WordSum, NewCheck;
    var q := NewCheckValue(udp);
    var check: int := NewCheck(udp);
    ThreeUpdates(udp, udp[FLAGS] + 0x80, check % 256, check / 256);
    PatchArithmetic(udp[UDP_CHECK], udp[UDP_CHECK + 1], udp[FLAGS], udp[FLAGS + 1], q,
                    check, check % 256, check / 256);
    k := 256 * q + udp[UDP_CHECK + 1] - check / 256 - udp[FLAGS + 1];
  }

  /** Whatever the datagram and its length: the patch changes its one's complement sum by exactly the
      old flags word, because the code adds the whole new flags word instead of the change. */
  lemma PatchShiftsSum(pseudo: nat, udp: seq<u8>)
    requires |udp| >= 20 && udp[FLAGS] < 0x80
    ensures (pseudo + WordSum(Patched(udp))) % 0xffff == (pseudo + WordSum(udp) - Word(udp, FLAGS)) % 0xffff
  {
    hide WordSum, Patched;
    var k := PatchedSum(udp);
    SameRemainder(pseudo + WordSum(udp) - Word(udp, FLAGS), k);
  }

  lemma PatchArithmetic(c0: int, c1: int, f0: int, f1: int, q: int, check: int, lo: int, hi: int)
    requires check == c0 + 256 * c1 - (f0 + 256 * f1 + 0x80) + 0xffff * q
    requires check == lo + 256 * hi
    ensures 256 * 0x80 + 256 * (lo - c0) + (hi - c1) == 0xffff * (256 * q + c1 - hi - f1) - (256 * f0 + f1)
  {
  }

  /** With a valid checksum present, the patch keeps it valid exactly when the flags were all zero. */
  lemma ValidIffFlagsWereZero(pseudo: nat, udp: seq<u8>)
    requires |udp| >= 20 && udp[FLAGS] < 0x80 && ChecksumHolds(pseudo, udp)
    ensures ChecksumHolds(pseudo, Patched(udp)) <==> Word(udp, FLAGS) == 0
  {
    PatchShiftsSum(pseudo, udp);
    hide Patched, WordSum;
    var s: int, f: int := pseudo + WordSum(udp), Word(udp, FLAGS);
    var k := s / 0xffff;
    SameRemainder(-f, k);
    assert (-f) % 0xffff == 0 <==> f == 0;
  }

  /** A request sent without a checksum gets one, unless every other flag was set; a receiver accepts it
      only if the sum over the whole datagram happened to equal the flags word. */
  lemma AbsentChecksumBecomesPresent(pseudo: nat, udp: seq<u8>)
    requires |udp| >= 20 && udp[FLAGS] < 0x80 && Word(udp, UDP_CHECK) == 0
    ensures |Patched(udp)| == |udp|
    ensures Word(Patched(udp), UDP_CHECK) == 0 <==> Word(udp, FLAGS) == 0x7fff
    ensures Word(udp, FLAGS) != 0x7fff ==>
              (Acceptable(pseudo, Patched(udp)) <==> (pseudo + WordSum(udp) - Word(udp, FLAGS)) % 0xffff == 0)
  {
    PatchShiftsSum(pseudo, udp);
    CheckFromNone(udp);
    hide WordSum, NewCheck;
    var check: int := NewCheck(udp);
    assert Word(Patched(udp), UDP_CHECK) == 256 * (check % 256) + check / 256;
  }

  /** The other way round: the patch makes a checksum that was present absent exactly when the old checksum
      word is the new flags word, whatever the flags were. */
  lemma PresentChecksumBecomesAbsent(udp: seq<u8>)
    requires |udp| >= 20 && udp[FLAGS] < 0x80 && Word(udp, UDP_CHECK) != 0
    ensures |Patched(udp)| == |udp|
    ensures Word(Patched(udp), UDP_CHECK) == 0 <==> HostWord(udp, UDP_CHECK) == HostWord(udp, FLAGS) + 0x80
  {
    CheckFromSome(udp);
    hide NewCheck;
    var check: int := NewCheck(udp);
    assert Word(Patched(udp), UDP_CHECK) == 256 * (check % 256) + check / 256;
  }

  lemma CheckFromSome(udp: seq<u8>)
    requires |udp| >= 20 && udp[FLAGS] < 0x80 && Word(udp, UDP_CHECK) != 0
    ensures NewCheck(udp) == 0 <==> HostWord(udp, UDP_CHECK) == HostWord(udp, FLAGS) + 0x80
  {
    var c: int, f: int := HostWord(udp, UDP_CHECK), HostWord(udp, FLAGS) + 0x80;
    SmallFold(0xffff - c + f);
    hide Fold, HostWord;
  }

  /** One carry is enough for the sum of two words that are not both all ones. */
  lemma SmallFold(x: nat)
    requires x < 0x1_ffff
    ensures Fold(x) == if x < 0x1_0000 then x else x - 0xffff
  {
    FoldOnce(x);
    if x >= 0x1_0000 {
      Carry(x);
      FoldOnce(x - 0xffff);
    }
    hide Fold;
  }

  lemma Carry(x: nat)
    requires 0x1_0000 <= x < 0x2_0000
    ensures x / 0x1_0000 == 1 && x % 0x1_0000 == x - 0x1_0000
  {
  }

  lemma CheckFromNone(udp: seq<u8>)
    requires |udp| >= 20 && udp[FLAGS] < 0x80 && Word(udp, UDP_CHECK) == 0
    ensures NewCheck(udp) == 0xffff - (HostWord(udp, FLAGS) + 0x80)
  {
    var f: int := HostWord(udp, FLAGS) + 0x80;
    SmallFold(0xffff + f);
    hide Fold;
  }

  // ------------------------------------------------------------------
  // The frame as the driver patches it

  const IP_START: nat := 14

  predicate Bit7(x: u8) { x >= 0x80 }

  /** Where the UDP header starts, from the IP header length field. */
  function UdpStart(frame: seq<u8>): nat
    requires |frame| > IP_START
  {
    IP_START + 4 * (frame[IP_START] % 16)
  }

  predicate IsUdp(frame: seq<u8>)
    requires |frame| >= 14 && (frame[12..14] == [0x08, 0x00] ==> |frame| >= IP_START + 10)
  {
    frame[12..14] == [0x08, 0x00] && frame[IP_START + 9] == 17
  }

  predicate ToServer(frame: seq<u8>, u: nat)
    requires u + 4 <= |frame|
  {
    frame[u..u + 2] == [0, 68] && frame[u + 2..u + 4] == [0, 67]
  }

  /** The frame is as long as what is read of it: each test is made only if the ones before it hold. */
  predicate Readable(frame: seq<u8>) {
    && |frame| >= 14 && (frame[12..14] == [0x08, 0x00] ==> |frame| >= IP_START + 10)
    && (IsUdp(frame) ==> |frame| >= UdpStart(frame) + 4)
    && (IsUdp(frame) && ToServer(frame, UdpStart(frame)) ==> |frame| >= UdpStart(frame) + COOKIE + 4)
  }

  /** An IPv4 UDP frame from the DHCP client port to the server port that carries the magic cookie. */
  predicate IsDhcpRequest(frame: seq<u8>)
    requires Readable(frame)
  {
    && IsUdp(frame) && ToServer(frame, UdpStart(frame))
    && var c := UdpStart(frame) + COOKIE; frame[c..c + 4] == [0x63, 0x82, 0x53, 0x63]
  }

  /** What the patch makes of a frame. */
  function Flagged(f: seq<u8>, disabled: bool): seq<u8>
    requires disabled || Readable(f)
  {
    if !disabled && IsDhcpRequest(f) && !Bit7(f[UdpStart(f) + FLAGS]) then
      f[..UdpStart(f)] + Patched(f[UdpStart(f)..])
    else f
  }

  /** dhcp_flag_bcast: only the flags byte and the checksum of a request without the flag change. */
  method FlagBroadcast(frame: array<u8>, disabled: bool)
    requires disabled || Readable(frame[..])
    modifies frame
    ensures frame[..] == Flagged(old(frame[..]), disabled)
  {
    hide Fold;
    ghost var f := frame[..];
    if disabled || !IsDhcpRequest(frame[..]) {
      return;
    }
    var u := UdpStart(frame[..]);
    if Bit7(frame[u + FLAGS]) {
      return;
    }
    ghost var udp := f[u..];
    frame[u + FLAGS] := frame[u + FLAGS] + 0x80;
    assert frame[u..] == udp[FLAGS := udp[FLAGS] + 0x80];
    assert HostWord(frame[u..], FLAGS) == HostWord(udp, FLAGS) + 0x80;
    var sum: nat := 0xffff - HostWord(frame[u..], UDP_CHECK);
    sum := sum + HostWord(frame[u..], FLAGS);
    ghost var start, flagged := sum, frame[..];
    while sum / 0x1_0000 > 0
      invariant Fold(sum) == Fold(start) && frame[..] == flagged
      decreases sum
    {
      FoldOnce(sum);
      sum := sum % 0x1_0000 + sum / 0x1_0000;
    }
    FoldOnce(sum);
    frame[u + UDP_CHECK] := (0xffff - sum) % 256;
    frame[u + UDP_CHECK + 1] := (0xffff - sum) / 256;
    assert frame[u..] == Patched(udp);
    assert frame[..u] == f[..u];
    assert frame[..] == frame[..u] + frame[u..];
  }

  lemma FoldOnce(x: nat)
    ensures Fold(x) == if x < 0x1_0000 then x else Fold(x % 0x1_0000 + x / 0x1_0000)
  {
  }

  // ------------------------------------------------------------------
  // The same in terms of the headers' fields

  /** A frame by its fields: addresses and type of the Ethernet header; version, length, protocol and the rest
      of the IP header; the UDP header; the DHCP message with its two runs of addresses and names. */
  datatype Fields = Fields(
    macs: seq<u8>, etherType: u16,
    version: u8, ihl: u8, ipMiddle: seq<u8>, protocol: u8, ipRest: seq<u8>,
    source: u16, dest: u16, length: u16, check: u16,
    op: u8, htype: u8, hlen: u8, hops: u8, xid: seq<u8>, secs: u16, flags: u16,
    ciaddr: seq<u8>, yiaddr: seq<u8>, siaddr: seq<u8>, giaddr: seq<u8>,
    chaddr: seq<u8>, sname: seq<u8>, file: seq<u8>, cookie: seq<u8>, options: seq<u8>)

  predicate WellFormed(d: Fields) {
    && |d.macs| == 12 && d.version < 16 && 5 <= d.ihl < 16 && |d.ipMiddle| == 8 && |d.ipRest| == 4 * d.ihl - 10
    && |d.xid| == |d.ciaddr| == |d.yiaddr| == |d.siaddr| == |d.giaddr| == |d.cookie| == 4
    && |d.chaddr| == 16 && |d.sname| == 64 && |d.file| == 128
  }

  /** A 16-bit field, high-order byte first. */
  function Big(w: u16): (b: seq<u8>)
    ensures |b| == 2
  {
    [w / 256, w % 256]
  }

  function Head(d: Fields): seq<u8>
    requires WellFormed(d)
  {
    d.macs + Big(d.etherType) + [16 * d.version + d.ihl] + d.ipMiddle + [d.protocol] + d.ipRest
  }

  function Datagram(d: Fields): seq<u8>
    requires WellFormed(d)
  {
    Big(d.source) + Big(d.dest) + Big(d.length) + Big(d.check)
    + [d.op, d.htype, d.hlen, d.hops] + d.xid + Big(d.secs) + Big(d.flags)
    + d.ciaddr + d.yiaddr + d.siaddr + d.giaddr + d.chaddr + d.sname + d.file + d.cookie + d.options
  }

  /** A DHCP message on its way from a client to a server. */
  predicate FromClient(d: Fields) {
    d.etherType == 0x0800 && d.protocol == 17 && d.source == 68 && d.dest == 67 && d.cookie == [0x63, 0x82, 0x53, 0x63]
  }

  lemma BigInjective(v: u16, w: u16)
    ensures Big(v) == Big(w) <==> v == w
  {
    assert v == 256 * (v / 256) + v % 256 && w == 256 * (w / 256) + w % 256;
    assert Big(v) == Big(w) ==> Big(v)[0] == Big(w)[0] && Big(v)[1] == Big(w)[1];
  }

  lemma HeadParts(d: Fields)
    requires WellFormed(d)
    ensures var h := Head(d);
            && |h| == 14 + 4 * d.ihl && h[12..14] == Big(d.etherType) && h[14] % 16 == d.ihl && h[23] == d.protocol
  {
    hide Big;
    var h := Head(d);
    assert h[12..14] == Big(d.etherType) && h[14] == 16 * d.version + d.ihl;
  }

  lemma DatagramParts(d: Fields)
    requires WellFormed(d)
    ensures var u := Datagram(d);
            && |u| == 248 + |d.options| && u[..2] == Big(d.source) && u[2..4] == Big(d.dest)
            && u[6..8] == Big(d.check) && u[18..20] == Big(d.flags) && u[244..248] == d.cookie
  {
    hide Big;
    var u := Datagram(d);
    assert u[..2] == Big(d.source) && u[2..4] == Big(d.dest) && u[6..8] == Big(d.check);
    assert u[18..20] == Big(d.flags);
    assert u[244..248] == d.cookie;
  }

  /** What lies between the fields of a message that the patch changes. */
  function Gaps(u: seq<u8>): (seq<u8>, seq<u8>, seq<u8>)
    requires |u| >= 20
  {
    (u[..6], u[8..18], u[20..])
  }

  lemma GapsKept(d: Fields, check: u16, flags: u16)
    requires WellFormed(d)
    ensures var u, u' := Datagram(d), Datagram(d.(check := check, flags := flags));
            |u| == |u'| >= 20 && Gaps(u) == Gaps(u')
  {
    hide Big;
    var u, u' := Datagram(d), Datagram(d.(check := check, flags := flags));
    assert u[..6] == u'[..6];
    assert u[8..18] == u'[8..18];
    assert u[20..] == u'[20..];
  }

  lemma SameOutsideGaps(u: seq<u8>, u': seq<u8>)
    requires |u| == |u'| >= 20 && Gaps(u) == Gaps(u')
    ensures u' == u[18 := u'[18]][19 := u'[19]][6 := u'[6]][7 := u'[7]]
  {
    var v := u[18 := u'[18]][19 := u'[19]][6 := u'[6]][7 := u'[7]];
    assert forall i :: 0 <= i < 6 ==> u[i] == Gaps(u).0[i] && u'[i] == Gaps(u').0[i];
    assert forall i :: 8 <= i < 18 ==> u[i] == Gaps(u).1[i - 8] && u'[i] == Gaps(u').1[i - 8];
    assert forall i :: 20 <= i < |u| ==> u[i] == Gaps(u).2[i - 20] && u'[i] == Gaps(u').2[i - 20];
  }

  /** Two messages that differ in checksum and flags only. */
  lemma DatagramChanged(d: Fields, check: u16, flags: u16)
    requires WellFormed(d)
    ensures var u, c, f := Datagram(d), Big(check), Big(flags);
            && |u| >= 20
            && Datagram(d.(check := check, flags := flags)) == u[18 := f[0]][19 := f[1]][6 := c[0]][7 := c[1]]
  {
    var d' := d.(check := check, flags := flags);
    GapsKept(d, check, flags);
    DatagramParts(d');
    hide Big, Datagram, Gaps;
    var u, u' := Datagram(d), Datagram(d');
    SameOutsideGaps(u, u');
    assert u'[6] == u'[6..8][0] && u'[7] == u'[6..8][1] && u'[18] == u'[18..20][0] && u'[19] == u'[18..20][1];
  }

  lemma PatchedCheck(udp: seq<u8>)
    requires |udp| >= 20 && udp[FLAGS] < 0x80
    ensures (Word(Patched(udp), UDP_CHECK) + Word(udp, FLAGS) + 0x8000 - Word(udp, UDP_CHECK)) % 0xffff == 0
  {
    var q := NewCheckValue(udp);
    var check: int := NewCheck(udp);
    PatchArithmetic(udp[UDP_CHECK], udp[UDP_CHECK + 1], udp[FLAGS], udp[FLAGS + 1], q,
                    check, check % 256, check / 256);
    hide NewCheck;
    SameRemainder(0, 256 * q + udp[UDP_CHECK + 1] - check / 256 - udp[FLAGS + 1]);
  }

  lemma FrameIsRequest(d: Fields)
    requires WellFormed(d)
    ensures var f := Head(d) + Datagram(d);
            && Readable(f) && (IsDhcpRequest(f) <==> FromClient(d)) && UdpStart(f) == |Head(d)|
  {
    HeadParts(d);
    DatagramParts(d);
    BigInjective(d.etherType, 0x0800);
    BigInjective(d.source, 68);
    BigInjective(d.dest, 67);
    FrameSlices(Head(d), Datagram(d));
    hide Big, Head, Datagram;
  }

  lemma FrameSlices(h: seq<u8>, u: seq<u8>)
    requires |h| >= 34 && |u| >= 248
    ensures var f := h + u;
            && f[12..14] == h[12..14] && f[14] == h[14] && f[23] == h[23]
            && f[|h|..|h| + 2] == u[..2] && f[|h| + 2..|h| + 4] == u[2..4]
            && f[|h| + 244..|h| + 248] == u[244..248]
  {
  }

  /** dhcp_flag_bcast on a frame built from its fields: of a client's message without the broadcast flag the
      flags field gains the flag and the checksum changes by the new flags field in one's complement
      arithmetic; no other field changes, and no other frame. */
  lemma FlaggedFields(d: Fields) returns (check: u16)
    requires WellFormed(d)
    ensures Readable(Head(d) + Datagram(d))
    ensures FromClient(d) && d.flags < 0x8000 ==>
              && (check + d.flags + 0x8000 - d.check) % 0xffff == 0
              && var d' := d.(check := check, flags := d.flags + 0x8000);
                 Flagged(Head(d) + Datagram(d), false) == Head(d') + Datagram(d')
    ensures !FromClient(d) || d.flags >= 0x8000 ==>
              Flagged(Head(d) + Datagram(d), false) == Head(d) + Datagram(d)
  {
    FrameIsRequest(d);
    DatagramParts(d);
    HeadParts(d);
    hide Datagram, Head, IsDhcpRequest, Readable, Big;
    var h, u := Head(d), Datagram(d);
    FlagsByte(d, u);
    FlaggedParts(h, u);
    check := 0;
    if FromClient(d) && d.flags < 0x8000 {
      check := PatchedDatagram(d);
      SameHead(d, check);
    }
    hide FromClient, Patched, WellFormed;
  }

  lemma SameHead(d: Fields, check: u16)
    requires WellFormed(d) && d.flags < 0x8000
    ensures Head(d.(check := check, flags := d.flags + 0x8000)) == Head(d)
  {
  }

  lemma FlaggedParts(h: seq<u8>, u: seq<u8>)
    requires Readable(h + u) && |h| > IP_START && UdpStart(h + u) == |h| && |u| >= 20
    ensures Flagged(h + u, false) ==
            if IsDhcpRequest(h + u) && !Bit7(u[FLAGS]) then h + Patched(u) else h + u
  {
    hide IsDhcpRequest, Readable, UdpStart, Patched;
    assert (h + u)[..|h|] == h && (h + u)[|h|..] == u;
  }

  lemma PatchedDatagram(d: Fields) returns (check: u16)
    requires WellFormed(d) && d.flags < 0x8000
    ensures (check + d.flags + 0x8000 - d.check) % 0xffff == 0
    ensures var u := Datagram(d);
            && |u| >= 20 && u[FLAGS] < 0x80
            && Datagram(d.(check := check, flags := d.flags + 0x8000)) == Patched(u)
  {
    DatagramParts(d);
    var u := Datagram(d);
    FlagsByte(d, u);
    check := Word(Patched(u), UDP_CHECK);
    PatchedCheck(u);
    DatagramChanged(d, check, d.flags + 0x8000);
    PatchedAsFields(d, u, check);
    hide Datagram, Patched, Word, Big, WellFormed;
  }

  lemma FlagsByte(d: Fields, u: seq<u8>)
    requires |u| >= 20 && u[18..20] == Big(d.flags) && u[6..8] == Big(d.check)
    ensures Bit7(u[FLAGS]) <==> d.flags >= 0x8000
    ensures Word(u, FLAGS) == d.flags && Word(u, UDP_CHECK) == d.check
  {
    assert u[18] == u[18..20][0] && u[19] == u[18..20][1] && u[6] == u[6..8][0] && u[7] == u[6..8][1];
  }

  lemma PatchedAsFields(d: Fields, u: seq<u8>, check: u16)
    requires |u| >= 20 && u[18..20] == Big(d.flags) && d.flags < 0x8000 && u[FLAGS] < 0x80
    requires check == Word(Patched(u), UDP_CHECK)
    ensures var c, f := Big(check), Big(d.flags + 0x8000); Patched(u) == u[18 := f[0]][19 := f[1]][6 := c[0]][7 := c[1]]
  {
    hide NewCheck;
    assert u[18] == u[18..20][0] && u[19] == u[18..20][1];
    var p := Patched(u);
    assert Big(check) == [p[6], p[7]];
    assert Big(d.flags + 0x8000) == [u[18] + 0x80, u[19]];
  }
}
