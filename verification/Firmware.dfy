/** Firmware upload in blocks, and the framing of the commands that carry them. */
module Firmware {
  import opened Common
  import opened Crc
  import opened Crc8

  // ------------------------------------------------------------------
  // Upload

  const BLOCK: nat := 1024

  /** A memory block write request. */
  datatype Write = Write(addr: u32, data: seq<u8>)

  type Memory = map<u32, u8>

  /** The device stores bytes at consecutive 32-bit addresses. */
  function Store(mem: Memory, addr: u32, data: seq<u8>): Memory {
    if data == [] then mem
    else Store(mem, addr, data[..|data| - 1])[Wrap32(addr + |data| - 1) := data[|data| - 1]]
  }

  function Apply(mem: Memory, ws: seq<Write>): Memory {
    if ws == [] then mem
    else Store(Apply(mem, ws[..|ws| - 1]), ws[|ws| - 1].addr, ws[|ws| - 1].data)
  }

  /** Requests that cover `image` from `addr` on: non-empty, at most a block each, one after the other. */
  ghost predicate Tiles(ws: seq<Write>, addr: u32, image: seq<u8>) {
    if ws == [] then image == []
    else
      var last := ws[|ws| - 1];
      && 1 <= |last.data| <= BLOCK && |last.data| <= |image|
      && var done := |image| - |last.data|;
      && last.addr == Wrap32(addr + done) && last.data == image[done..]
      && Tiles(ws[..|ws| - 1], addr, image[..done])
  }

  /** rwnx_plat_bin_fw_upload_android: `fails` are the requests the device does not confirm. */
  method Upload(image: seq<u8>, addr: u32, fails: set<nat>) returns (ok: bool, ws: seq<Write>)
    requires |image| < 0x8000_0000
    ensures ok ==> image != [] && Tiles(ws, addr, image) && |ws| == (|image| + 1023) / 1024
    ensures !ok ==> image == [] || exists n :: 0 < n <= |image| && Tiles(ws, addr, image[..n]) && |ws| - 1 in fails
  {
    hide Tiles, Wrap32;
    var size := |image|;
    ws := [];
    assert Tiles(ws, addr, image[..0]) by { NoTiles(addr); }
    if size <= 0 {
      return false, ws;
    }
    var i := 0;
    ok := true;
    if size > BLOCK {
      ghost var n := 0;
      while i < size - BLOCK && ok
        invariant 0 <= i < size
        invariant ok ==> Tiles(ws, addr, image[..i]) && i == BLOCK * |ws|
        invariant !ok ==> 0 < n <= |image| && Tiles(ws, addr, image[..n]) && |ws| - 1 in fails
        decreases size - i, ok
      {
        n := i + BLOCK;
        OneMoreTile(ws, addr, image, i, i + BLOCK);
        ws := ws + [Write(Wrap32(addr + i), image[i..i + BLOCK])];
        if |ws| - 1 in fails {
          ok := false;
        } else {
          i := i + BLOCK;
        }
      }
    }
    if ok && i < size {
      OneMoreTile(ws, addr, image, i, size);
      ws := ws + [Write(Wrap32(addr + i), image[i..])];
      assert image[i..size] == image[i..] && image[..size] == image;
      if |ws| - 1 in fails {
        ok := false;
      }
    }
  }

  lemma NoTiles(addr: u32)
    ensures Tiles([], addr, [])
  {
  }

  lemma OneMoreTile(ws: seq<Write>, addr: u32, image: seq<u8>, i: nat, j: nat)
    requires i < j <= |image| && j <= i + BLOCK && Tiles(ws, addr, image[..i])
    ensures Tiles(ws + [Write(Wrap32(addr + i), image[i..j])], addr, image[..j])
  {
    var ws' := ws + [Write(Wrap32(addr + i), image[i..j])];
    assert ws'[..|ws'| - 1] == ws;
    assert image[..j][..i] == image[..i] && image[..j][i..] == image[i..j];
  }

  lemma WrapTwice(a: int, b: int)
    ensures Wrap32(Wrap32(a) + b) == Wrap32(a + b)
  {
  }

  lemma {:induction false} StoreConcat(mem: Memory, addr: u32, x: seq<u8>, y: seq<u8>)
    ensures Store(Store(mem, addr, x), Wrap32(addr + |x|), y) == Store(mem, addr, x + y)
  {
    hide Wrap32;
    if y == [] {
      assert x + y == x;
    } else {
      StoreConcat(mem, addr, x, y[..|y| - 1]);
      assert (x + y)[..|x + y| - 1] == x + y[..|y| - 1];
      WrapTwice(addr + |x|, |y| - 1);
    }
  }

  /** Tiling requests do to the device what storing the whole image would. */
  lemma {:induction false} TilesStoreImage(mem: Memory, ws: seq<Write>, addr: u32, image: seq<u8>)
    requires Tiles(ws, addr, image)
    ensures Apply(mem, ws) == Store(mem, addr, image)
  {
    hide Store;
    if ws == [] {
      EmptyStore(mem, addr);
    } else {
      var last := ws[|ws| - 1];
      var done := |image| - |last.data|;
      TilesStoreImage(mem, ws[..|ws| - 1], addr, image[..done]);
      StoreConcat(mem, addr, image[..done], last.data);
      assert image[..done] + image[done..] == image;
    }
  }

  lemma EmptyStore(mem: Memory, addr: u32)
    ensures Store(mem, addr, []) == mem
  {
  }

  lemma AddressesDiffer(addr: u32, i: nat, j: nat)
    requires i < 0x1_0000_0000 && j < 0x1_0000_0000
    ensures Wrap32(addr + i) == Wrap32(addr + j) <==> i == j
  {
  }

  /** Storing puts byte `k` at the k-th address. */
  lemma {:induction false} StoredByte(mem: Memory, addr: u32, data: seq<u8>, k: nat)
    requires k < |data| <= 0x1_0000_0000
    ensures var m := Store(mem, addr, data); Wrap32(addr + k) in m && m[Wrap32(addr + k)] == data[k]
  {
    hide Wrap32;
    var n := |data| - 1;
    if k < n {
      StoredByte(mem, addr, data[..n], k);
      AddressesDiffer(addr, k, n);
    }
  }

  /** Storing touches no address outside the range. */
  lemma {:induction false} Untouched(mem: Memory, addr: u32, data: seq<u8>, i: nat)
    requires |data| <= i < 0x1_0000_0000
    ensures var a, m := Wrap32(addr + i), Store(mem, addr, data);
            (a in m <==> a in mem) && (a in mem ==> m[a] == mem[a])
  {
    hide Wrap32;
    if data != [] {
      Untouched(mem, addr, data[..|data| - 1], i);
      AddressesDiffer(addr, i, |data| - 1);
    }
  }

  /** After an upload without errors the device holds the image, and no other address has changed. */
  lemma UploadedImage(mem: Memory, ws: seq<Write>, addr: u32, image: seq<u8>, i: nat)
    requires Tiles(ws, addr, image) && |image| <= 0x1_0000_0000 && i < 0x1_0000_0000
    ensures var a, m := Wrap32(addr + i), Apply(mem, ws);
            if i < |image| then a in m && m[a] == image[i]
            else (a in m <==> a in mem) && (a in mem ==> m[a] == mem[a])
  {
    hide Store, Apply, Tiles, Wrap32;
    TilesStoreImage(mem, ws, addr, image);
    if i < |image| {
      StoredByte(mem, addr, image, i);
    } else {
      Untouched(mem, addr, image, i);
    }
  }

  // ------------------------------------------------------------------
  // Command frames

  const CMD_BUF_MAX: nat := 1536
  const HEAD: nat := 16          // bus header, dummy word and message header

  datatype Message = Message(id: u16, dest: u16, src: u16, param: seq<u8>)

  function Low(x: nat): u8 { x % 256 }
  function High8(x: nat): u8 { x / 256 % 256 }
  function Pair(b: seq<u8>, i: nat): nat
    requires i + 1 < |b|
  {
    var lo: int, hi: int := b[i], b[i + 1];
    lo + 256 * hi
  }

  /** The length field has 12 bits. */
  function HeaderLength(b: seq<u8>): nat
    requires |b| >= 2
  {
    var lo: int, hi: int := b[0], b[1];
    lo + 256 * (hi % 16)
  }

  function ToOctet(x: u8): Octet { Octet(x as bv8) }
  function FromOctet(o: Octet): u8 { o.v as int }

  lemma OctetRoundTrip(v: bv8)
    ensures ToOctet(FromOctet(Octet(v))) == Octet(v)
  {
  }

  function Octets(b: seq<u8>): (os: seq<Octet>)
    ensures |os| == |b|
  {
    seq(|b|, i requires 0 <= i < |b| => ToOctet(b[i]))
  }

  /** How the firmware reads a command; some chips check the CRC of the first three header bytes. */
  function Parse(b: seq<u8>, checked: bool): Option<Message> {
    if |b| < HEAD || b[2] != 0x11 || HeaderLength(b) + 4 != |b| || Pair(b, 14) + HEAD != |b| then None
    else if checked && Crc8.Crc8(Octets(b[..4])) != ZERO8 then None
    else Some(Message(Pair(b, 8), Pair(b, 10), Pair(b, 12), b[HEAD..]))
  }

  function Lead(n: nat): (b: seq<u8>)
    ensures |b| == 3
  {
    [Low(n + 4), (n + 4) / 256 % 16, 0x11]
  }

  /** The fourth header byte. */
  function HeaderCheck(n: nat, checked: bool): u8 {
    if checked then FromOctet(Crc8.Crc8(Octets(Lead(n)))) else 0
  }

  /** The bus header with its dummy word, and the message header. */
  function BusHead(n: nat, checked: bool): (b: seq<u8>)
    ensures |b| == 8
  {
    Lead(n) + [HeaderCheck(n, checked), 0, 0, 0, 0]
  }

  function MessageHead(msg: Message): (b: seq<u8>)
    ensures |b| == 8
  {
    [Low(msg.id), High8(msg.id), Low(msg.dest), High8(msg.dest),
     Low(msg.src), High8(msg.src), Low(|msg.param|), High8(|msg.param|)]
  }

  function FrameBytes(msg: Message, checked: bool): seq<u8> {
    BusHead(8 + |msg.param|, checked) + MessageHead(msg) + msg.param
  }

  /** Where everything is in a command: the length twice, once counting what follows the bus header and once the
      parameters; the type; identifier, destination and source, low-order byte first. */
  lemma FrameLayout(msg: Message)
    requires HEAD + |msg.param| <= CMD_BUF_MAX
    ensures var b, n := FrameBytes(msg, false), |msg.param|;
            && |b| == n + 16
            && b[0] == (n + 12) % 256 && b[1] == (n + 12) / 256 && b[2] == 0x11
            && b[3] == b[4] == b[5] == b[6] == b[7] == 0
            && b[8] == msg.id % 256 && b[9] == msg.id / 256
            && b[10] == msg.dest % 256 && b[11] == msg.dest / 256
            && b[12] == msg.src % 256 && b[13] == msg.src / 256
            && b[14] == n % 256 && b[15] == n / 256
            && b[16..] == msg.param
  {
  }

  lemma PairRoundTrip(x: u16)
    ensures Low(x) as int + 256 * High8(x) == x
  {
  }

  lemma HeaderChecks(n: nat)
    ensures Crc8.Crc8(Octets(BusHead(n, true)[..4])) == ZERO8
  {
    hide Crc8.Crc8, ToOctet, FromOctet, Lead;
    var c := Crc8.Crc8(Octets(Lead(n)));
    OctetRoundTrip(c.v);
    Crc8OfFrame(Octets(Lead(n)));
    assert Octets(BusHead(n, true)[..4]) == Octets(Lead(n)) + [c];
  }

  /** Any command that fits the buffer is read back as it was. */
  lemma ParseOfFrame(msg: Message, checked: bool)
    requires HEAD + |msg.param| <= CMD_BUF_MAX
    ensures Parse(FrameBytes(msg, checked), checked) == Some(msg)
  {
    var n := 8 + |msg.param|;
    var b, head := FrameBytes(msg, checked), BusHead(n, checked);
    HeaderChecks(n);
    hide Low, High8, Lead, Crc8.Crc8, Octets, HeaderCheck, ToOctet, FromOctet;
    assert b[..4] == head[..4] && b[..3] == Lead(n) && b[HEAD..] == msg.param;
    LengthIn(b, n);
    PairsIn(b, MessageHead(msg), msg);
    hide MessageHead, BusHead, FrameBytes, Pair, HeaderLength;
  }

  lemma LengthIn(b: seq<u8>, n: nat)
    requires |b| >= 3 && b[..3] == Lead(n) && n + 4 < 0x1000
    ensures HeaderLength(b) == n + 4 && b[2] == 0x11
  {
    PairRoundTrip(n + 4);
    assert b[0] == b[..3][0] && b[1] == b[..3][1] && b[2] == b[..3][2];
  }

  lemma PairsIn(b: seq<u8>, h: seq<u8>, msg: Message)
    requires |b| >= HEAD && h == MessageHead(msg) == b[8..HEAD] && |msg.param| < 0x1_0000
    ensures Pair(b, 8) == msg.id && Pair(b, 10) == msg.dest && Pair(b, 12) == msg.src && Pair(b, 14) == |msg.param|
  {
    PairRoundTrip(msg.id);
    PairRoundTrip(msg.dest);
    PairRoundTrip(msg.src);
    PairRoundTrip(|msg.param|);
    hide Low, High8;
    assert forall i :: 0 <= i < 8 ==> b[8 + i] == h[i];
  }

  /** A chip that checks the header notices any one damaged byte of it. */
  lemma HeaderDamageRefused(b: seq<u8>, i: nat, x: u8)
    requires Parse(b, true).Some? && i < 4 && ToOctet(x) != ToOctet(b[i])
    ensures Parse(b[i := x], true).None?
  {
    hide ToOctet, Crc8.Crc8;
    var g := b[i := x];
    var before, after := Octets(b[..i]), Octets(b[i + 1..4]);
    assert Octets(b[..4]) == before + [ToOctet(b[i])] + after;
    assert Octets(g[..4]) == before + [ToOctet(x)] + after;
    Crc8DetectsByte(before, ToOctet(b[i]), ToOctet(x), after);
  }

  /** rwnx_set_cmd_tx: fills the command buffer and returns the payload length. */
  method SetCmdTx(buffer: array<u8>, msg: Message, checked: bool) returns (len: nat)
    requires buffer.Length == CMD_BUF_MAX && HEAD + |msg.param| <= CMD_BUF_MAX
    modifies buffer
    ensures len == HEAD + |msg.param|
    ensures buffer[..len] == FrameBytes(msg, checked) && Parse(buffer[..len], checked) == Some(msg)
    ensures forall i :: len <= i < buffer.Length ==> buffer[i] == 0
  {
    len := 8 + |msg.param| + 8;
    hide Parse, BusHead, MessageHead;
    Clear(buffer, 0, buffer.Length);
    WriteBusHead(buffer, 8 + |msg.param|, checked);
    WriteMessageHead(buffer, msg);
    for i := 0 to |msg.param|
      invariant buffer[..8] == BusHead(8 + |msg.param|, checked) && buffer[8..HEAD] == MessageHead(msg)
      invariant buffer[HEAD..HEAD + i] == msg.param[..i]
      invariant forall j :: HEAD + |msg.param| <= j < buffer.Length ==> buffer[j] == 0
    {
      buffer[HEAD + i] := msg.param[i];
    }
    assert buffer[HEAD..len] == msg.param;
    assert buffer[..len] == buffer[..8] + buffer[8..HEAD] + buffer[HEAD..len];
    assert buffer[..len] == FrameBytes(msg, checked);
    ParseOfFrame(msg, checked);
  }

  method WriteBusHead(buffer: array<u8>, n: nat, checked: bool)
    requires buffer.Length == CMD_BUF_MAX && forall i :: 0 <= i < buffer.Length ==> buffer[i] == 0
    modifies buffer
    ensures buffer[..8] == BusHead(n, checked)
    ensures forall i :: 8 <= i < buffer.Length ==> buffer[i] == 0
  {
    hide Low, Crc8.Crc8, ToOctet, FromOctet;
    buffer[0] := Low(n + 4);
    buffer[1] := (n + 4) / 256 % 16;
    buffer[2] := 0x11;
    assert buffer[..3] == Lead(n);
    if checked {
      var c := ComputeCrc8(Octets(buffer[..3]));
      buffer[3] := FromOctet(c);
    }
  }

  method WriteMessageHead(buffer: array<u8>, msg: Message)
    requires buffer.Length == CMD_BUF_MAX && forall i :: 8 <= i < buffer.Length ==> buffer[i] == 0
    modifies buffer
    ensures buffer[..8] == old(buffer[..8]) && buffer[8..HEAD] == MessageHead(msg)
    ensures forall i :: HEAD <= i < buffer.Length ==> buffer[i] == 0
  {
    hide Low, High8;
    buffer[8], buffer[9] := Low(msg.id), High8(msg.id);
    buffer[10], buffer[11] := Low(msg.dest), High8(msg.dest);
    buffer[12], buffer[13] := Low(msg.src), High8(msg.src);
    buffer[14], buffer[15] := Low(|msg.param|), High8(|msg.param|);
  }

  // ------------------------------------------------------------------
  // Upload through commands

  const MEM_BLOCK_WRITE_REQ: u16 := 1035   // DBG_MEM_BLOCK_WRITE_REQ
  const TASK_DBG: u16 := 1
  const DRV_TASK_ID: u16 := 100

  /** A word as four bytes, low-order first, and back. */
  function WordBytes(w: u32): (b: seq<u8>)
    ensures |b| == 4
  {
    [w % 0x100, w / 0x100 % 0x100, w / 0x1_0000 % 0x100, w / 0x100_0000 % 0x100]
  }

  function WordAt(b: seq<u8>, j: nat): u32
    requires j + 4 <= |b|
  {
    var b0: int, b1: int, b2: int, b3: int := b[j], b[j + 1], b[j + 2], b[j + 3];
    b0 + b1 * 0x100 + b2 * 0x1_0000 + b3 * 0x100_0000
  }

  lemma WordRoundTrip(w: u32)
    ensures WordAt(WordBytes(w), 0) == w
  {
    assert w / 0x1_0000 == w / 0x100 / 0x100;
    assert w / 0x100_0000 == w / 0x1_0000 / 0x100;
  }

  /** The command of a block write: address, size, and a data array that always has its full length. */
  function Request(w: Write): Message
    requires |w.data| <= BLOCK
  {
    Message(MEM_BLOCK_WRITE_REQ, TASK_DBG, DRV_TASK_ID,
            WordBytes(w.addr) + WordBytes(|w.data|) + w.data + seq(BLOCK - |w.data|, _ => 0))
  }

  /** Where everything is in its parameters: address and size, low-order byte first, then the data. */
  lemma RequestLayout(w: Write)
    requires |w.data| <= BLOCK
    ensures var m := Request(w);
            && m.id == 1035 && m.dest == 1 && m.src == 100 && |m.param| == 1032
            && m.param[0] == w.addr % 0x100 && m.param[1] == w.addr / 0x100 % 0x100
            && m.param[2] == w.addr / 0x1_0000 % 0x100 && m.param[3] == w.addr / 0x100_0000
            && m.param[4] == |w.data| % 0x100 && m.param[5] == |w.data| / 0x100
            && m.param[6] == m.param[7] == 0
            && m.param[8..8 + |w.data|] == w.data
            && forall i :: 8 + |w.data| <= i < 1032 ==> m.param[i] == 0
  {
  }

  /** How the firmware reads it. */
  function WriteIn(msg: Message): Option<Write> {
    if msg.id != MEM_BLOCK_WRITE_REQ || |msg.param| != 8 + BLOCK || WordAt(msg.param, 4) > BLOCK then None
    else Some(Write(WordAt(msg.param, 0), msg.param[8..8 + WordAt(msg.param, 4)]))
  }

  lemma WriteOfRequest(w: Write)
    requires |w.data| <= BLOCK
    ensures WriteIn(Request(w)) == Some(w)
  {
    var p := Request(w).param;
    WordRoundTrip(w.addr);
    WordRoundTrip(|w.data|);
    hide WordBytes;
    assert p[..4] == WordBytes(w.addr) && p[4..8] == WordBytes(|w.data|);
    assert WordAt(p, 0) == WordAt(p[..4], 0) && WordAt(p, 4) == WordAt(p[4..8], 0);
    assert p[8..8 + |w.data|] == w.data;
  }

  /** What goes over the bus for a command: its frame, filled up with zeros to the transfer length. */
  function Transfer(msg: Message, checked: bool): seq<u8> {
    var f := FrameBytes(msg, checked);
    TransferCovers(|f|);
    f + seq(TransferLength(|f|) - |f|, _ => 0)
  }

  /** The firmware goes by the length field of what it receives. */
  function Cut(b: seq<u8>): seq<u8> {
    if |b| < 2 || HeaderLength(b) + 4 > |b| then b else b[..HeaderLength(b) + 4]
  }

  lemma CutTransfer(msg: Message, checked: bool)
    requires HEAD + |msg.param| <= CMD_BUF_MAX
    ensures Cut(Transfer(msg, checked)) == FrameBytes(msg, checked)
  {
    var f, t := FrameBytes(msg, checked), Transfer(msg, checked);
    ParseOfFrame(msg, checked);
    assert HeaderLength(f) + 4 == |f|;
    hide FrameBytes, Parse, TransferLength;
    assert t[0] == f[0] && t[1] == f[1] && t[..|f|] == f;
  }

  /** Filling the command buffer and padding it puts exactly this transfer into it. */
  method SendCommand(buffer: array<u8>, msg: Message, checked: bool) returns (len: nat)
    requires buffer.Length == CMD_BUF_MAX && HEAD + |msg.param| <= CMD_BUF_MAX
    modifies buffer
    ensures len == TransferLength(HEAD + |msg.param|)
    ensures len <= CMD_BUF_MAX ==> buffer[..len] == Transfer(msg, checked)
  {
    hide FrameBytes, Parse, TransferLength, Cleared;
    var cmdLen := SetCmdTx(buffer, msg, checked);
    TransferCovers(cmdLen);
    ghost var f := buffer[..cmdLen];
    len := PadTransfer(buffer, cmdLen);
    assert buffer[..cmdLen] == f;
    if len <= CMD_BUF_MAX {
      assert forall i :: cmdLen <= i < len ==> buffer[i] == 0;
    }
  }

  /** What a transfer does to the device. */
  function Receive(mem: Memory, transfer: seq<u8>, checked: bool): Memory {
    var msg := Parse(Cut(transfer), checked);
    if msg.None? || WriteIn(msg.value).None? then mem
    else Store(mem, WriteIn(msg.value).value.addr, WriteIn(msg.value).value.data)
  }

  function ReceiveAll(mem: Memory, transfers: seq<seq<u8>>, checked: bool): Memory {
    if transfers == [] then mem
    else Receive(ReceiveAll(mem, transfers[..|transfers| - 1], checked), transfers[|transfers| - 1], checked)
  }

  /** The transfers of a series of requests. */
  function Transfers(ws: seq<Write>, checked: bool): seq<seq<u8>>
    requires forall w :: w in ws ==> |w.data| <= BLOCK
  {
    if ws == [] then []
    else Transfers(ws[..|ws| - 1], checked) + [Transfer(Request(ws[|ws| - 1]), checked)]
  }

  lemma {:induction false} TilesFitBlocks(ws: seq<Write>, addr: u32, image: seq<u8>)
    requires Tiles(ws, addr, image)
    ensures forall w :: w in ws ==> |w.data| <= BLOCK
  {
    if ws != [] {
      var last := ws[|ws| - 1];
      TilesFitBlocks(ws[..|ws| - 1], addr, image[..|image| - |last.data|]);
      assert forall w :: w in ws ==> w in ws[..|ws| - 1] || w == last;
    }
  }

  lemma {:induction false} TransfersApply(mem: Memory, ws: seq<Write>, checked: bool)
    requires forall w :: w in ws ==> |w.data| <= BLOCK
    ensures ReceiveAll(mem, Transfers(ws, checked), checked) == Apply(mem, ws)
  {
    hide Parse, FrameBytes, WriteIn, Request, Store, Transfer, Cut;
    if ws != [] {
      var last := ws[|ws| - 1];
      TransfersApply(mem, ws[..|ws| - 1], checked);
      assert |Request(last).param| == 8 + BLOCK by { RequestLength(last); }
      CutTransfer(Request(last), checked);
      ParseOfFrame(Request(last), checked);
      WriteOfRequest(last);
      var ts := Transfers(ws, checked);
      assert ts[..|ts| - 1] == Transfers(ws[..|ws| - 1], checked);
    }
  }

  lemma RequestLength(w: Write)
    requires |w.data| <= BLOCK
    ensures |Request(w).param| == 8 + BLOCK
  {
  }

  /** End to end: once the firmware has read the transfers of an upload without errors, the device holds the
      image, and no other address has changed. */
  lemma UploadedThroughTransfers(mem: Memory, ws: seq<Write>, addr: u32, image: seq<u8>, checked: bool, i: nat)
    requires Tiles(ws, addr, image) && |image| <= 0x1_0000_0000 && i < 0x1_0000_0000
    ensures forall w :: w in ws ==> |w.data| <= BLOCK
    ensures var a, m := Wrap32(addr + i), ReceiveAll(mem, Transfers(ws, checked), checked);
            if i < |image| then a in m && m[a] == image[i]
            else (a in m <==> a in mem) && (a in mem ==> m[a] == mem[a])
  {
    hide *;
    TilesFitBlocks(ws, addr, image);
    TransfersApply(mem, ws, checked);
    UploadedImage(mem, ws, addr, image, i);
  }

  // ------------------------------------------------------------------
  // Transfers

  function RoundUp4(n: nat): nat {
    (n + 3) / 4 * 4
  }

  /** The transfer length of aicwf_sdio_tx_msg: aligned to 4, and unless that is a whole number of
      512-byte blocks, followed by a 4-byte tail and always one more block than the tail's end. */
  function TransferLength(len: nat): nat {
    var aligned := RoundUp4(len);
    if aligned % 512 == 0 then aligned else ((aligned + 4) / 512 + 1) * 512
  }

  lemma TransferCovers(len: nat)
    ensures len <= TransferLength(len)
    ensures len <= Cleared(len)
  {
  }

  /** A transfer is a whole number of blocks that contains the payload and its tail, and it stays inside
      the command buffer exactly for the payloads up to 1528 bytes and for those of the last word. */
  lemma TransferFits(len: nat)
    requires len <= CMD_BUF_MAX
    ensures TransferLength(len) % 512 == 0
    ensures len <= TransferLength(len) && (len > 0 ==> TransferLength(len) > 0)
    ensures TransferLength(len) <= CMD_BUF_MAX <==> len <= 1528 || len > 1532
  {
  }

  /** Never more than one block beyond the aligned payload and its tail, and no tail for whole blocks. */
  lemma TransferExact(len: nat)
    ensures var a, t := (len + 3) / 4 * 4, TransferLength(len);
            && t % 512 == 0
            && (a % 512 == 0 ==> t == a)
            && (a % 512 != 0 ==> a + 4 < t <= a + 4 + 512)
  {
    var a := RoundUp4(len);
    assert a == (len + 3) / 4 * 4;
    hide RoundUp4;
    NextBlock(a + 4);
  }

  lemma NextBlock(n: nat)
    ensures var t := (n / 512 + 1) * 512; t % 512 == 0 && n < t <= n + 512
  {
    assert n == n / 512 * 512 + n % 512;
  }

  /** A block write request always carries the whole 1024-byte data array, and fits. */
  lemma BlockWriteFits()
    ensures TransferLength(HEAD + 8 + BLOCK) == CMD_BUF_MAX
  {
  }

  /** memset to zero. */
  method Clear(buffer: array<u8>, from: nat, end: nat)
    requires from <= end <= buffer.Length
    modifies buffer
    ensures forall j :: 0 <= j < buffer.Length ==> buffer[j] == if from <= j < end then 0 else old(buffer[j])
  {
    for i := from to end
      invariant forall j :: 0 <= j < buffer.Length ==> buffer[j] == if from <= j < i then 0 else old(buffer[j])
    {
      buffer[i] := 0;
    }
  }

  /** aicwf_sdio_tx_msg up to the transfer: clears the alignment bytes and the tail. */
  method PadTransfer(buffer: array<u8>, cmdLen: nat) returns (len: nat)
    requires buffer.Length == CMD_BUF_MAX && cmdLen <= CMD_BUF_MAX
    modifies buffer
    ensures len == TransferLength(cmdLen)
    ensures forall i :: 0 <= i < buffer.Length ==>
              buffer[i] == if cmdLen <= i < Cleared(cmdLen) then 0 else old(buffer[i])
  {
    var payloadLen := cmdLen;
    len := payloadLen;
    if len % 4 != 0 {
      var adjusted := RoundUp4(len);
      Clear(buffer, payloadLen, payloadLen + (adjusted - len));
      payloadLen := payloadLen + (adjusted - len);
    }
    len := payloadLen;
    if len % 512 != 0 {
      Clear(buffer, payloadLen, payloadLen + 4);
      payloadLen := payloadLen + 4;
      len := (payloadLen / 512 + 1) * 512;
    } else {
      len := payloadLen;
    }
  }

  /** Where the bytes written as zero end. */
  function Cleared(cmdLen: nat): nat {
    var aligned := RoundUp4(cmdLen);
    if aligned % 512 == 0 then aligned else aligned + 4
  }
}
