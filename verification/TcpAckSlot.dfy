/** 32-bit sequence numbers as compared by the ACK filter. */
module SeqNum {
  import opened Common

  /** Reinterpretation of a 32-bit word as a signed one. */
  function Signed(x: u32): int {
    if x < 0x8000_0000 then x else x - 0x1_0000_0000
  }

  /** U32_BEFORE: the signed difference is not positive. */
  predicate Before(a: u32, b: u32) {
    Signed(Wrap32(a - b)) <= 0
  }

  /** The unbounded acknowledgement numbers a 32-bit comparison against `front` can tell apart. */
  predicate InWindow(front: int, x: int) {
    front - 0x8000_0000 < x <= front + 0x8000_0000
  }

  /** The number in the window around `front` whose low 32 bits are `s`. */
  function Unwrap(front: int, s: u32): int {
    front - Signed(Wrap32(front - s))
  }

  /** Every 32-bit number names exactly one number of the window. */
  lemma UnwrapIsTheOne(front: int, s: u32, x: int)
    ensures InWindow(front, Unwrap(front, s)) && Wrap32(Unwrap(front, s)) == s
    ensures InWindow(front, x) && Wrap32(x) == s <==> x == Unwrap(front, s)
  {
    var d := Wrap32(front - s);
    var k := (front - s) / 0x1_0000_0000;
    assert front - s == k * 0x1_0000_0000 + d;
    var u := Unwrap(front, s);
    assert u == s + k * 0x1_0000_0000 || u == s + (k + 1) * 0x1_0000_0000;
    assert Wrap32(u) == s;
    if InWindow(front, x) && Wrap32(x) == s {
      assert (x - u) % 0x1_0000_0000 == 0;
    }
  }

  /** Inside the window the wrap-around comparison is the comparison of the unbounded numbers. */
  lemma BeforeIsOrder(front: int, x: int)
    requires InWindow(front, x)
    ensures Before(Wrap32(front), Wrap32(x)) <==> front <= x
  {
    assert Wrap32(Wrap32(front) - Wrap32(x)) == Wrap32(front - x);
  }
}

/** One entry of the flow table: a single flow's held ACK, its counters and its timer. */
module AckSlot {
  import opened Common
  import opened SeqNum

  const DROP_LIMIT: int := 10   // TCP_ACK_DROP_CNT

  datatype Flow = Flow(source: u16, dest: u16, saddr: int, daddr: int)

  /** What the classifier makes of an outgoing frame. `ack` is the sender's unbounded
      acknowledgement number; the filter only ever looks at its low 32 bits. */
  datatype Packet =
    | Oversized
    | NotAck
    | PureAck(flow: Flow, ack: int, winScale: u16)

  /** A message buffer, identified by its address, and the frame it carries. */
  datatype Msg = Msg(id: nat, pkt: Packet)

  type AckMsg = m: Msg | m.pkt.PureAck? witness Msg(0, PureAck(Flow(0, 0, 0, 0), 0, 0))

  function SeqOf(m: AckMsg): u32 {
    Wrap32(m.pkt.ack)
  }

  datatype Slot = Slot(
    busy: bool, flow: Flow, front: u32, winScale: u16,
    dropCnt: nat, psh: bool, pshSeq: u32, lastTime: int, armed: bool,
    held: Option<AckMsg>, inSend: Option<AckMsg>)

  datatype SlotEvent =
    | Idle
    | Expire
    | Alloc(m: AckMsg, now: int)
    | Rescale(scale: u16)
    | Ack(m: AckMsg, now: int)
    | Push(upTo: u32)
    | Timer
    | SendDone(msg: Msg)
    | Drain

  /** A step of one slot: its new contents, and the buffers that left it. A dropped buffer is freed
      before the other one is handed back to the caller or passed to the transmit path. */
  datatype Outcome = Outcome(
    slot: Slot, dropped: Option<AckMsg>, returned: Option<AckMsg>, sent: Option<AckMsg>)
  {
    /** The ACK this step lets out on its way to the peer. */
    function LetOut(): Option<AckMsg> {
      if returned.Some? then returned else sent
    }
  }

  function Quiet(s: Slot): Outcome {
    Outcome(s, None, None, None)
  }

  predicate Accepts(s: Slot, m: AckMsg) {
    Before(s.front, SeqOf(m))
  }

  function Rescaled(s: Slot, scale: u16): Slot {
    if scale != 0 && s.winScale != scale then s.(winScale := scale) else s
  }

  predicate PushReached(s: Slot, m: AckMsg) {
    s.psh && !Before(SeqOf(m), s.pshSeq)
  }

  /** tcp_ack_handle_new, after the window scale has been recorded. */
  function HandleAck(s0: Slot, m: AckMsg, now: int): Outcome
  {
    var s := Rescaled(s0, m.pkt.winScale).(lastTime := now);
    if !Accepts(s, m) then
      Outcome(s, Some(m), None, None)
    else
      var quick := PushReached(s, m);
      var cnt := if quick then s.dropCnt else s.dropCnt + 1;
      var t := s.(front := SeqOf(m), psh := s.psh && !quick);
      if quick || (s.inSend.None? && cnt >= DROP_LIMIT) then
        Outcome(t.(dropCnt := 0, inSend := Some(m), armed := false, held := None), s.held, Some(m), None)
      else
        Outcome(t.(dropCnt := cnt, held := Some(m), armed := true), s.held, None, None)
  }

  function SlotStep(s: Slot, e: SlotEvent): Outcome
  {
    match e
    case Idle => Quiet(s)
    case Expire => Quiet(s.(busy := false))
    case Alloc(m, now) =>
      // held and inSend keep whatever the previous flow left behind
      Outcome(s.(busy := true, psh := false, lastTime := now, dropCnt := DROP_LIMIT,
                 winScale := if m.pkt.winScale != 0 then m.pkt.winScale else 1,
                 flow := m.pkt.flow, front := SeqOf(m)),
              None, Some(m), None)
    case Rescale(scale) => Quiet(Rescaled(s, scale))
    case Ack(m, now) => HandleAck(s, m, now)
    case Push(upTo) => Quiet(s.(psh := true, pshSeq := upTo))
    case Timer =>
      if s.busy && s.held.Some? && s.inSend.None? then
        Outcome(s.(held := None, dropCnt := 0, inSend := s.held, armed := false), None, None, s.held)
      else
        Quiet(s.(armed := false))
    case SendDone(m) =>
      if s.busy && s.inSend.Some? && s.inSend.value.id == m.id then Quiet(s.(inSend := None)) else Quiet(s)
    case Drain => Outcome(s.(armed := false, held := None), s.held, None, None)
  }

  /** Only expiry and allocation change whether a slot is in use, and only allocation its flow. */
  lemma StepKeepsFlow(s: Slot, e: SlotEvent)
    ensures var s' := SlotStep(s, e).slot;
            && s'.busy == (if e.Expire? then false else if e.Alloc? then true else s.busy)
            && s'.flow == if e.Alloc? then e.m.pkt.flow else s.flow
  {
  }

  /** A run of one slot: the slot afterwards, the ACKs dropped, and the ACKs let out, in order. */
  datatype Trace = Trace(slot: Slot, dropped: seq<AckMsg>, released: seq<AckMsg>)

  function AddTo(ms: seq<AckMsg>, m: Option<AckMsg>): seq<AckMsg> {
    if m.Some? then ms + [m.value] else ms
  }

  function Extend(t: Trace, o: Outcome): Trace {
    Trace(o.slot, AddTo(t.dropped, o.dropped), AddTo(t.released, o.LetOut()))
  }

  function SlotRun(s: Slot, es: seq<SlotEvent>): Trace
  {
    if es == [] then Trace(s, [], [])
    else
      var t := SlotRun(s, es[..|es| - 1]);
      Extend(t, SlotStep(t.slot, es[|es| - 1]))
  }

  lemma SlotRunSnoc(s: Slot, es: seq<SlotEvent>, e: SlotEvent)
    ensures SlotRun(s, es + [e]) == Extend(SlotRun(s, es), SlotStep(SlotRun(s, es).slot, e))
  {
  }

  // ------------------------------------------------------------------
  // A flow from its allocation until it expires

  /** Events a slot sees between its allocation and its expiry. */
  predicate Live(e: SlotEvent) {
    e.Idle? || e.Rescale? || e.Ack? || e.Push? || e.Timer? || e.SendDone?
  }

  /** The most advanced acknowledgement number offered, starting from `a`. */
  function MaxAck(a: int, es: seq<SlotEvent>): int {
    if es == [] then a
    else
      var max, last := MaxAck(a, es[..|es| - 1]), es[|es| - 1];
      if last.Ack? && last.m.pkt.ack > max then last.m.pkt.ack else max
  }

  /** Every ACK offered is close enough to the most advanced one for 32 bits to order them. */
  predicate Ordered(a: int, es: seq<SlotEvent>) {
    es == [] ||
    (Ordered(a, es[..|es| - 1]) &&
     (es[|es| - 1].Ack? ==> InWindow(MaxAck(a, es[..|es| - 1]), es[|es| - 1].m.pkt.ack)))
  }

  /** The number of the last ACK let out, counting the allocating one, `a`. */
  function LastOut(a: int, ms: seq<AckMsg>): int {
    if ms == [] then a else ms[|ms| - 1].pkt.ack
  }

  predicate Ascending(a: int, ms: seq<AckMsg>) {
    && (forall i :: 0 <= i < |ms| ==> a <= ms[i].pkt.ack)
    && (forall i, j :: 0 <= i < j < |ms| ==> ms[i].pkt.ack <= ms[j].pkt.ack)
  }

  lemma AscendingAddTo(a: int, ms: seq<AckMsg>, m: Option<AckMsg>)
    requires Ascending(a, ms) && (m.Some? ==> LastOut(a, ms) <= m.value.pkt.ack)
    ensures Ascending(a, AddTo(ms, m))
  {
  }

  predicate NothingLost(a: int, max: int, t: Trace) {
    && t.slot.busy
    && t.slot.front == Wrap32(max)
    // the most advanced ACK is the held one, or it is the last one let out
    && max == (if t.slot.held.Some? then t.slot.held.value.pkt.ack else LastOut(a, t.released))
    // ACKs leave in ascending order, and none is ahead of the most advanced one offered
    && Ascending(a, t.released)
    && a <= LastOut(a, t.released) <= max
    // a dropped ACK is covered by the most advanced one
    && (forall i :: 0 <= i < |t.dropped| ==> t.dropped[i].pkt.ack <= max)
  }

  /** What an event of a live slot does to the front, the held ACK and the ACKs that leave: an accepted
      ACK displaces the held one and is held or leaves; a stale one is dropped; otherwise the held one may
      leave. */
  predicate Effect(s: Slot, e: SlotEvent, s': Slot, dropped: Option<AckMsg>, out: Option<AckMsg>) {
    && s'.busy
    && if e.Ack? && Accepts(s, e.m) then
         && s'.front == SeqOf(e.m) && dropped == s.held
         && ((s'.held == Some(e.m) && out.None?) || (s'.held.None? && out == Some(e.m)))
       else
         && s'.front == s.front && dropped == (if e.Ack? then Some(e.m) else None)
         && ((s'.held == s.held && out.None?) || (s'.held.None? && out == s.held))
  }

  lemma LiveStep(s: Slot, e: SlotEvent)
    requires s.busy && Live(e)
    ensures var o := SlotStep(s, e); Effect(s, e, o.slot, o.dropped, o.LetOut())
  {
  }

  lemma {:induction false} NothingLostStep(
    a: int, max: int, t: Trace, e: SlotEvent, s': Slot, dropped: Option<AckMsg>, out: Option<AckMsg>)
    requires NothingLost(a, max, t) && Effect(t.slot, e, s', dropped, out)
    requires e.Ack? ==> InWindow(max, e.m.pkt.ack)
    ensures NothingLost(a, if e.Ack? && e.m.pkt.ack > max then e.m.pkt.ack else max,
                        Trace(s', AddTo(t.dropped, dropped), AddTo(t.released, out)))
  {
    if e.Ack? {
      BeforeIsOrder(max, e.m.pkt.ack);
    }
    AscendingAddTo(a, t.released, out);
  }

  // A slot that was recycled may still hold its previous flow's ACK, `x`. It is told apart by its buffer.

  function OwnOf(m: Option<AckMsg>, x: Option<AckMsg>): Option<AckMsg> {
    if m.Some? && x.Some? && m.value.id == x.value.id then None else m
  }

  function Own(ms: seq<AckMsg>, x: Option<AckMsg>): seq<AckMsg> {
    if ms == [] then [] else AddTo(Own(ms[..|ms| - 1], x), OwnOf(Some(ms[|ms| - 1]), x))
  }

  /** A run without the inherited ACK. */
  function SetAside(t: Trace, x: Option<AckMsg>): Trace {
    Trace(t.slot.(held := OwnOf(t.slot.held, x)), Own(t.dropped, x), Own(t.released, x))
  }

  predicate Offers(e: SlotEvent, x: Option<AckMsg>) {
    Gives(e).Some? && x.Some? && Gives(e).value.id == x.value.id
  }

  lemma OwnAddTo(ms: seq<AckMsg>, m: Option<AckMsg>, x: Option<AckMsg>)
    ensures Own(AddTo(ms, m), x) == AddTo(Own(ms, x), OwnOf(m, x))
  {
    if m.Some? {
      assert (ms + [m.value])[..|ms + [m.value]| - 1] == ms;
    }
  }

  lemma {:induction false} NothingToSetAside(ms: seq<AckMsg>)
    ensures Own(ms, None) == ms
  {
    if ms != [] {
      NothingToSetAside(ms[..|ms| - 1]);
      assert ms == ms[..|ms| - 1] + [ms[|ms| - 1]];
    }
  }

  lemma EffectSetAside(s: Slot, e: SlotEvent, s': Slot, dropped: Option<AckMsg>, out: Option<AckMsg>, x: Option<AckMsg>)
    requires Effect(s, e, s', dropped, out) && !Offers(e, x)
    ensures Effect(s.(held := OwnOf(s.held, x)), e, s'.(held := OwnOf(s'.held, x)), OwnOf(dropped, x), OwnOf(out, x))
  {
  }

  /** No acknowledgement is lost: for every run of a flow from its allocation, an inherited ACK set aside,
      the most advanced ACK offered is the held one or the last one let out, every dropped ACK is
      covered by it, and ACKs are let out in ascending order starting from the allocating one. */
  lemma {:induction false} NoAckLost(s: Slot, a: int, es: seq<SlotEvent>)
    requires s.busy && s.front == Wrap32(a)
    requires forall e :: e in es ==> Live(e) && !Offers(e, s.held)
    requires Ordered(a, es)
    ensures NothingLost(a, MaxAck(a, es), SetAside(SlotRun(s, es), s.held))
    ensures s.held.None? ==> SetAside(SlotRun(s, es), s.held) == SlotRun(s, es)
  {
    var x := s.held;
    if es != [] {
      var init, e := es[..|es| - 1], es[|es| - 1];
      NoAckLost(s, a, init);
      var t := SlotRun(s, init);
      var o := SlotStep(t.slot, e);
      assert e in es;
      LiveStep(t.slot, e);
      EffectSetAside(t.slot, e, o.slot, o.dropped, o.LetOut(), x);
      hide SlotStep, Effect, Offers, Own, OwnOf;
      NothingLostStep(a, MaxAck(a, init), SetAside(t, x), e, SetAside(Trace(o.slot, [], []), x).slot,
                      OwnOf(o.dropped, x), OwnOf(o.LetOut(), x));
      OwnAddTo(t.dropped, o.dropped, x);
      OwnAddTo(t.released, o.LetOut(), x);
    }
    if x.None? {
      NothingToSetAside(SlotRun(s, es).dropped);
      NothingToSetAside(SlotRun(s, es).released);
    }
  }

  // ------------------------------------------------------------------
  // Arbitrary streams of 32-bit numbers

  /** The same buffer with the same 32-bit contents, whatever unbounded numbers they stand for. */
  predicate Same(m: AckMsg, n: AckMsg) {
    m.id == n.id && m.pkt.flow == n.pkt.flow && m.pkt.winScale == n.pkt.winScale && SeqOf(m) == SeqOf(n)
  }

  predicate SameOpt(m: Option<AckMsg>, n: Option<AckMsg>) {
    m.Some? == n.Some? && (m.Some? ==> Same(m.value, n.value))
  }

  predicate SameSlot(s: Slot, t: Slot) {
    t == s.(held := t.held, inSend := t.inSend) && SameOpt(s.held, t.held) && SameOpt(s.inSend, t.inSend)
  }

  predicate SameEvent(e: SlotEvent, f: SlotEvent) {
    match e
    case Ack(m, now) => f.Ack? && f.now == now && Same(m, f.m)
    case Alloc(m, now) => f.Alloc? && f.now == now && Same(m, f.m)
    case _ => e == f
  }

  predicate SameSeq(ms: seq<AckMsg>, ns: seq<AckMsg>) {
    |ms| == |ns| && forall i :: 0 <= i < |ms| ==> Same(ms[i], ns[i])
  }

  lemma SameStep(s: Slot, t: Slot, e: SlotEvent, f: SlotEvent)
    requires SameSlot(s, t) && SameEvent(e, f)
    ensures var o, p := SlotStep(s, e), SlotStep(t, f);
            && SameSlot(o.slot, p.slot) && SameOpt(o.dropped, p.dropped) && SameOpt(o.LetOut(), p.LetOut())
  {
    hide Before, SeqOf;
    if e.Ack? {
      SameHandling(s, t, e.m, f.m, e.now);
      hide HandleAck, Same;
    }
  }

  lemma SameHandling(s: Slot, t: Slot, m: AckMsg, n: AckMsg, now: int)
    requires SameSlot(s, t) && Same(m, n)
    ensures var o, p := HandleAck(s, m, now), HandleAck(t, n, now);
            && SameSlot(o.slot, p.slot) && SameOpt(o.dropped, p.dropped) && SameOpt(o.LetOut(), p.LetOut())
  {
    hide Before, SeqOf;
  }

  /** Only the low 32 bits matter: runs over streams that agree on them take the same decisions. */
  lemma {:induction false} OnlyLowBitsMatter(s: Slot, es: seq<SlotEvent>, fs: seq<SlotEvent>)
    requires |es| == |fs| && forall i :: 0 <= i < |es| ==> SameEvent(es[i], fs[i])
    ensures var t, u := SlotRun(s, es), SlotRun(s, fs);
            SameSlot(t.slot, u.slot) && SameSeq(t.dropped, u.dropped) && SameSeq(t.released, u.released)
  {
    hide SlotStep, Same, SameEvent;
    if es == [] {
      assert SameSlot(s, s) by { SameSelf(s); }
    } else {
      var n := |es| - 1;
      OnlyLowBitsMatter(s, es[..n], fs[..n]);
      SameStep(SlotRun(s, es[..n]).slot, SlotRun(s, fs[..n]).slot, es[n], fs[n]);
    }
  }

  lemma SameSelf(s: Slot)
    ensures SameSlot(s, s)
  {
  }

  function Renumber(e: SlotEvent, front: int): SlotEvent {
    if e.Ack? then Ack(Msg(e.m.id, e.m.pkt.(ack := Unwrap(front, SeqOf(e.m)))), e.now) else e
  }

  /** The ACKs of a stream numbered one by one, each within the window around the most advanced so far. */
  function Unwrapped(a: int, es: seq<SlotEvent>): (fs: seq<SlotEvent>)
    ensures |fs| == |es|
  {
    if es == [] then []
    else
      var init := Unwrapped(a, es[..|es| - 1]);
      init + [Renumber(es[|es| - 1], MaxAck(a, init))]
  }

  /** Such a numbering exists for every stream, and is the stream's own if that is ordered. */
  lemma {:induction false} UnwrappedIsTheOne(a: int, es: seq<SlotEvent>)
    ensures var fs := Unwrapped(a, es);
            && Ordered(a, fs)
            && (forall i :: 0 <= i < |es| ==> SameEvent(es[i], fs[i]) && Live(es[i]) == Live(fs[i]))
            && (Ordered(a, es) ==> fs == es)
  {
    hide Unwrap, InWindow;
    if es != [] {
      var init, e := es[..|es| - 1], es[|es| - 1];
      UnwrappedIsTheOne(a, init);
      var fs := Unwrapped(a, es);
      assert fs[..|fs| - 1] == Unwrapped(a, init);
      if e.Ack? {
        UnwrapIsTheOne(MaxAck(a, Unwrapped(a, init)), SeqOf(e.m), e.m.pkt.ack);
      }
    }
  }

  /** No acknowledgement is lost for any stream of 32-bit numbers: its ACKs have a numbering under which
      the run takes the same decisions and `NothingLost` holds. */
  lemma NoAckLostInAnyStream(s: Slot, a: int, es: seq<SlotEvent>)
    requires s.busy && s.front == Wrap32(a)
    requires forall e :: e in es ==> Live(e) && !Offers(e, s.held)
    ensures var fs := Unwrapped(a, es);
            && NothingLost(a, MaxAck(a, fs), SetAside(SlotRun(s, fs), s.held))
            && (s.held.None? ==> SetAside(SlotRun(s, fs), s.held) == SlotRun(s, fs))
            && SameSlot(SlotRun(s, es).slot, SlotRun(s, fs).slot)
            && SameSeq(SlotRun(s, es).dropped, SlotRun(s, fs).dropped)
            && SameSeq(SlotRun(s, es).released, SlotRun(s, fs).released)
  {
    var fs := Unwrapped(a, es);
    UnwrappedIsTheOne(a, es);
    forall e | e in fs ensures Live(e) && !Offers(e, s.held) {
      var i :| 0 <= i < |fs| && fs[i] == e;
      assert es[i] in es && SameEvent(es[i], fs[i]);
    }
    hide SlotRun, Unwrapped, NothingLost, Live, Ordered, SameEvent, Offers, SetAside;
    OnlyLowBitsMatter(s, es, fs);
    NoAckLost(s, a, fs);
  }

  // ------------------------------------------------------------------
  // Bounded suppression

  /** The ACK let out last whose transmission has not been reported, from the trace alone. */
  function Unreported(u: Option<AckMsg>, s: Slot, es: seq<SlotEvent>): Option<AckMsg> {
    if es == [] then u
    else
      var prev := Unreported(u, s, es[..|es| - 1]);
      var e := es[|es| - 1];
      var out := SlotStep(SlotRun(s, es[..|es| - 1]).slot, e).LetOut();
      if out.Some? then out
      else if e.SendDone? && prev.Some? && prev.value.id == e.msg.id then None
      else prev
  }

  /** Whenever an ACK arrives, everything let out before it has been reported. */
  predicate Prompt(u: Option<AckMsg>, s: Slot, es: seq<SlotEvent>) {
    es == [] ||
    (Prompt(u, s, es[..|es| - 1]) &&
     (es[|es| - 1].Ack? ==> Unreported(u, s, es[..|es| - 1]).None?))
  }

  /** How many ACKs of a run the slot accepted. */
  function AcceptedCount(s: Slot, es: seq<SlotEvent>): nat {
    if es == [] then 0
    else
      var e := es[|es| - 1];
      AcceptedCount(s, es[..|es| - 1]) +
      (if e.Ack? && Accepts(SlotRun(s, es[..|es| - 1]).slot, e.m) then 1 else 0)
  }

  lemma SuppressionStep(s: Slot, e: SlotEvent)
    requires s.busy && Live(e)
    ensures var o := SlotStep(s, e);
            && o.slot.busy
            && o.slot.inSend == (if o.LetOut().Some? then o.LetOut()
                                 else if e.SendDone? && s.inSend.Some? && s.inSend.value.id == e.msg.id then None
                                 else s.inSend)
            && (o.LetOut().None? ==>
                  if e.Ack? && Accepts(s, e.m)
                  then o.slot.dropCnt == s.dropCnt + 1 && (s.inSend.None? ==> o.slot.dropCnt < DROP_LIMIT)
                  else o.slot.dropCnt == s.dropCnt)
  {
  }

  lemma {:induction false} SuppressionCount(s: Slot, es: seq<SlotEvent>)
    requires s.busy && forall e :: e in es ==> Live(e)
    requires Prompt(s.inSend, s, es)
    ensures var t := SlotRun(s, es);
            && t.slot.busy
            && t.slot.inSend == Unreported(s.inSend, s, es)
            && (t.released == [] ==>
                  && t.slot.dropCnt >= s.dropCnt + AcceptedCount(s, es)
                  && (AcceptedCount(s, es) > 0 ==> t.slot.dropCnt < DROP_LIMIT))
  {
    if es != [] {
      SuppressionCount(s, es[..|es| - 1]);
      SuppressionStep(SlotRun(s, es[..|es| - 1]).slot, es[|es| - 1]);
    }
  }

  /** If every ACK let out is reported before the next one arrives, any stretch of a flow in which
      10 ACKs are accepted lets at least one ACK out, whatever the timer and PSH events. */
  lemma BoundedSuppression(s: Slot, es: seq<SlotEvent>)
    requires s.busy && forall e :: e in es ==> Live(e)
    requires Prompt(s.inSend, s, es)
    requires AcceptedCount(s, es) >= DROP_LIMIT
    ensures SlotRun(s, es).released != []
  {
    SuppressionCount(s, es);
  }

  // ------------------------------------------------------------------
  // The PSH shortcut, thinning and the timer

  /** A received segment pushed data up to `p`. The flow's next ACK goes out at once exactly if it is beyond
      `p`, or is due by count anyway; the mark stays until an ACK beyond `p` has taken it. */
  lemma PushDecides(s: Slot, p: int, m: AckMsg, now: int)
    requires s.busy && Accepts(s, m) && InWindow(m.pkt.ack, p)
    ensures var o := SlotStep(SlotStep(s, Push(Wrap32(p))).slot, Ack(m, now));
            && (m.pkt.ack > p ==> o.returned == Some(m) && !o.slot.psh)
            && (m.pkt.ack <= p ==> o.slot.psh && (o.returned == Some(m) <==> s.inSend.None? && s.dropCnt >= 9))
  {
    BeforeIsOrder(m.pkt.ack, p);
  }

  /** The event is no push and no ACK beyond `p`. */
  predicate StaysBelow(e: SlotEvent, p: int) {
    Live(e) && !e.Push? && (e.Ack? ==> InWindow(e.m.pkt.ack, p) && e.m.pkt.ack <= p)
  }

  predicate Marked(s: Slot, p: int) {
    s.busy && s.psh && s.pshSeq == Wrap32(p)
  }

  lemma MarkStays(s: Slot, p: int, e: SlotEvent)
    requires Marked(s, p) && StaysBelow(e, p)
    ensures Marked(SlotStep(s, e).slot, p)
  {
    if e.Ack? {
      BeforeIsOrder(e.m.pkt.ack, p);
      hide Before;
    }
  }

  /** However long it takes: the first accepted ACK beyond the pushed data goes out at once. */
  lemma {:induction false} PushIsHonoured(s: Slot, p: int, es: seq<SlotEvent>)
    requires Marked(s, p) && forall e :: e in es ==> StaysBelow(e, p)
    ensures Marked(SlotRun(s, es).slot, p)
  {
    hide SlotStep, StaysBelow, Marked;
    if es != [] {
      var init, e := es[..|es| - 1], es[|es| - 1];
      PushIsHonoured(s, p, init);
      assert e in es;
      MarkStays(SlotRun(s, init).slot, p, e);
    }
  }

  lemma MarkedSlotSends(s: Slot, p: int, m: AckMsg, now: int)
    requires Marked(s, p) && Accepts(s, m) && InWindow(m.pkt.ack, p) && m.pkt.ack > p
    ensures SlotStep(s, Ack(m, now)).returned == Some(m)
  {
    BeforeIsOrder(m.pkt.ack, p);
  }

  /** An ACK that leaves by count, by PSH or by timer starts the count afresh, is the one whose sending is
      awaited, and leaves nothing held and no timer running. */
  lemma LetOutStartsAfresh(s: Slot, e: SlotEvent)
    requires s.busy && (e.Ack? || e.Timer?) && SlotStep(s, e).LetOut().Some?
    ensures var o := SlotStep(s, e);
            o.slot.dropCnt == 0 && o.slot.inSend == o.LetOut() && o.slot.held.None? && !o.slot.armed
  {
  }

  predicate Plain(e: SlotEvent) {
    Live(e) && !e.Timer? && !e.Push?
  }

  lemma PlainStep(s: Slot, e: SlotEvent)
    requires s.busy && !s.psh && Plain(e)
    requires e.Ack? && Accepts(s, e.m) ==> s.dropCnt + 1 < 10
    ensures var o := SlotStep(s, e);
            && o.slot.busy && !o.slot.psh && o.LetOut().None?
            && o.slot.dropCnt == s.dropCnt + (if e.Ack? && Accepts(s, e.m) then 1 else 0)
  {
  }

  /** The thinning itself: without PSH and timer, fewer than ten accepted ACKs since the count was started
      let none out. */
  lemma {:induction false} ThinsOut(s: Slot, es: seq<SlotEvent>)
    requires s.busy && !s.psh && forall e :: e in es ==> Plain(e)
    requires s.dropCnt + AcceptedCount(s, es) < 10
    ensures var t := SlotRun(s, es);
            && t.released == [] && t.slot.busy && !t.slot.psh
            && t.slot.dropCnt == s.dropCnt + AcceptedCount(s, es)
  {
    hide SlotStep, Plain, Accepts;
    if es != [] {
      var init, e := es[..|es| - 1], es[|es| - 1];
      ThinsOut(s, init);
      assert e in es;
      PlainStep(SlotRun(s, init).slot, e);
    }
  }

  lemma TimedStep(s: Slot, e: SlotEvent)
    requires Live(e) && !e.Timer? && (s.held.Some? ==> s.armed)
    ensures SlotStep(s, e).slot.held.Some? ==> SlotStep(s, e).slot.armed
  {
  }

  /** Until its timer fires, a slot that holds an ACK has the timer running. */
  lemma {:induction false} HeldIsTimed(s: Slot, es: seq<SlotEvent>)
    requires (s.held.Some? ==> s.armed) && forall e :: e in es ==> Live(e) && !e.Timer?
    ensures SlotRun(s, es).slot.held.Some? ==> SlotRun(s, es).slot.armed
  {
    hide SlotStep, Live;
    if es != [] {
      HeldIsTimed(s, es[..|es| - 1]);
      TimedStep(SlotRun(s, es[..|es| - 1]).slot, es[|es| - 1]);
    }
  }

  /** The window scale of the last ACK that carried one, 1 if none has since the allocation. */
  lemma ScaleRecorded(s: Slot, m: AckMsg, now: int)
    ensures SlotStep(s, Ack(m, now)).slot.winScale == (if m.pkt.winScale != 0 then m.pkt.winScale else s.winScale)
    ensures SlotStep(s, Alloc(m, now)).slot.winScale == (if m.pkt.winScale != 0 then m.pkt.winScale else 1)
  {
  }

  // ------------------------------------------------------------------
  // Ownership

  /** 1 when the optional buffer is `x`, else 0. */
  function Is(m: Option<AckMsg>, x: Msg): nat {
    if m.Some? && m.value == x then 1 else 0
  }

  function Gives(e: SlotEvent): Option<AckMsg> {
    if e.Ack? || e.Alloc? then Some(e.m) else None
  }

  /** A step neither loses nor duplicates a buffer. */
  lemma SlotConserves(s: Slot, e: SlotEvent, x: Msg)
    ensures var o := SlotStep(s, e);
            Is(s.held, x) + Is(Gives(e), x) ==
            Is(o.dropped, x) + Is(o.returned, x) + Is(o.sent, x) + Is(o.slot.held, x)
  {
  }

  // ------------------------------------------------------------------
  // What becomes of a held ACK

  datatype Fate = Kept | LetGo | Lost

  /** The timer finds the slot in use with no send outstanding. */
  predicate Frees(s: Slot, e: SlotEvent) {
    e.Timer? && s.busy && s.inSend.None?
  }

  /** A newer ACK is accepted, on whatever flow the slot has by then, or the filter is shut down. */
  predicate Discards(s: Slot, e: SlotEvent) {
    e.Drain? || (e.Ack? && Accepts(s, e.m))
  }

  /** Decided by the first event of a run that does either. */
  function FateIn(s: Slot, es: seq<SlotEvent>): Fate {
    if es == [] then Kept
    else
      var before, t, e := FateIn(s, es[..|es| - 1]), SlotRun(s, es[..|es| - 1]).slot, es[|es| - 1];
      if !before.Kept? then before
      else if Frees(t, e) then LetGo
      else if Discards(t, e) then Lost
      else Kept
  }

  lemma FateStep(s: Slot, e: SlotEvent, x: AckMsg)
    requires Gives(e) != Some(x)
    ensures !Frees(s, e) || !Discards(s, e)
    ensures var o := SlotStep(s, e);
            if s.held == Some(x) then
              && (o.slot.held == Some(x) <==> !Frees(s, e) && !Discards(s, e))
              && (o.LetOut() == Some(x) <==> Frees(s, e))
              && (o.dropped == Some(x) <==> Discards(s, e))
            else o.slot.held != Some(x) && o.LetOut() != Some(x) && o.dropped != Some(x)
  {
  }

  /** The fate of a held ACK over every continuation, expiry, recycling and shutdown included: it is
      still held, or was let out, or was dropped, according to the first event that decides. In
      particular one held when its slot expires is lost exactly if, once the slot has been recycled, an
      ACK of the next flow is accepted, or the filter is shut down, before the timer can send. */
  lemma {:induction false} HeldAckFate(s: Slot, es: seq<SlotEvent>, x: AckMsg)
    requires s.held == Some(x) && forall e :: e in es ==> Gives(e) != Some(x)
    ensures var t, fate := SlotRun(s, es), FateIn(s, es);
            && (fate.Kept? <==> t.slot.held == Some(x))
            && (fate.LetGo? <==> x in t.released)
            && (fate.Lost? <==> x in t.dropped)
  {
    hide SlotStep, Frees, Discards, Gives;
    if es != [] {
      var init, e := es[..|es| - 1], es[|es| - 1];
      HeldAckFate(s, init, x);
      assert e in es;
      FateStep(SlotRun(s, init).slot, e, x);
      InAddTo(SlotRun(s, init).dropped, SlotStep(SlotRun(s, init).slot, e).dropped, x);
      InAddTo(SlotRun(s, init).released, SlotStep(SlotRun(s, init).slot, e).LetOut(), x);
    }
  }

  lemma InAddTo(ms: seq<AckMsg>, m: Option<AckMsg>, x: AckMsg)
    ensures x in AddTo(ms, m) <==> x in ms || m == Some(x)
  {
  }
}
