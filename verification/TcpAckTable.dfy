/** The 32-slot flow table of the ACK filter: value semantics of its atomic steps. */
module AckTable {
  import opened Common
  import opened AckSlot

  const SLOTS: nat := 32        // TCP_ACK_NUM
  const OLD_TIME: int := 4000   // ACK_OLD_TIME, in milliseconds like every time here

  datatype Table = Table(enable: bool, maxNum: int, freeIndex: int, lastTime: int, slots: seq<Slot>)

  predicate Shape(t: Table) {
    |t.slots| == SLOTS
  }

  datatype Event =
    | Age(now: int)                 // tcp_ack_update
    | Deliver(m: Msg, now: int)     // filter_send_tcp_ack, after ageing
    | Receive(flow: Flow, upTo: u32)// filter_rx_tcp_ack, for a segment with ACK and PSH
    | TimerFires(slot: nat)         // tcp_ack_timeout
    | Done(msg: Msg)                // move_tcpack_msg
    | Deinit                        // tcp_ack_deinit

  predicate Matches(s: Slot, flow: Flow) {
    s.busy && s.flow == flow
  }

  predicate Aged(s: Slot, now: int) {
    s.busy && now > s.lastTime + OLD_TIME
  }

  /** The first index at or after `i` whose slot satisfies `p`, or -1. */
  function Find(slots: seq<Slot>, p: Slot -> bool, i: nat): (r: int)
    requires i <= |slots|
    ensures r < 0 ==> r == -1 && forall j :: i <= j < |slots| ==> !p(slots[j])
    ensures r >= 0 ==> i <= r < |slots| && p(slots[r]) && forall j :: i <= j < r ==> !p(slots[j])
    decreases |slots| - i
  {
    if i == |slots| then -1 else if p(slots[i]) then i else Find(slots, p, i + 1)
  }

  function MatchIndex(t: Table, flow: Flow): int {
    Find(t.slots, (s: Slot) => Matches(s, flow), 0)
  }

  /** The slot tcp_ack_alloc_index hands out, or -1. */
  function AllocIndex(t: Table): int {
    if t.maxNum == SLOTS then -1
    else if t.freeIndex >= 0 then t.freeIndex
    else Find(t.slots, (s: Slot) => !s.busy, 0)
  }

  predicate AgeingDue(t: Table, now: int) {
    now > t.lastTime + OLD_TIME
  }

  /** What one step of the table means for slot `i`. */
  function Touch(t: Table, e: Event, i: nat): SlotEvent
    requires i < |t.slots|
  {
    match e
    case Age(now) => if AgeingDue(t, now) && Aged(t.slots[i], now) then Expire else Idle
    case Deliver(m, now) =>
      if !m.pkt.PureAck? then Idle
      else
        var k := MatchIndex(t, m.pkt.flow);
        if k == i then (if t.enable then Ack(m, now) else Rescale(m.pkt.winScale))
        else if k < 0 && AllocIndex(t) == i then Alloc(m, now)
        else Idle
    case Receive(flow, upTo) => if t.enable && MatchIndex(t, flow) == i then Push(upTo) else Idle
    case TimerFires(k) => if k == i then Timer else Idle
    case Done(m) => if t.enable then SendDone(m) else Idle
    case Deinit => Drain
  }

  /** The outcome of a step for slot `i`. */
  function SlotOutcome(t: Table, e: Event, i: nat): Outcome
    requires i < |t.slots|
  {
    SlotStep(t.slots[i], Touch(t, e, i))
  }

  predicate Allocates(t: Table, e: Event) {
    e.Deliver? && e.m.pkt.PureAck? && MatchIndex(t, e.m.pkt.flow) < 0 && AllocIndex(t) >= 0
  }

  /** How many of the slots satisfy `p`. */
  function Count(slots: seq<Slot>, p: Slot -> bool): nat {
    if slots == [] then 0
    else Count(slots[..|slots| - 1], p) + (if p(slots[|slots| - 1]) then 1 else 0)
  }

  function NextSlots(t: Table, e: Event): seq<Slot> {
    seq(|t.slots|, i requires 0 <= i < |t.slots| => SlotOutcome(t, e, i).slot)
  }

  function Step(t: Table, e: Event): Table {
    var next := t.(slots := NextSlots(t, e));
    match e
    case Age(now) =>
      if !AgeingDue(t, now) then next
      else
        var p := (s: Slot) => Aged(s, now);
        var first := Find(t.slots, p, 0);
        next.(lastTime := now, maxNum := t.maxNum - Count(t.slots, p),
              freeIndex := if first >= 0 then first else t.freeIndex)
    case Deliver(_, _) =>
      if Allocates(t, e) then next.(maxNum := t.maxNum + 1, freeIndex := -1) else next
    case Deinit => next.(enable := false)
    case _ => next
  }

  function Run(t: Table, es: seq<Event>): Table {
    if es == [] then t else Step(Run(t, es[..|es| - 1]), es[|es| - 1])
  }

  lemma RunShape(t: Table, es: seq<Event>)
    ensures |Run(t, es).slots| == |t.slots|
  {
  }

  // ------------------------------------------------------------------
  // The allocator's redundant state

  predicate Busy(s: Slot) {
    s.busy
  }

  /** `maxNum` counts the busy slots, `freeIndex` is -1 or names a free slot, and no two busy slots
      carry the same flow. */
  predicate Consistent(t: Table) {
    && Shape(t)
    && t.maxNum == Count(t.slots, Busy)
    && -1 <= t.freeIndex < SLOTS
    && (t.freeIndex >= 0 ==> !t.slots[t.freeIndex].busy)
    && forall i, j :: 0 <= i < j < |t.slots| && t.slots[i].busy && t.slots[j].busy
                      ==> t.slots[i].flow != t.slots[j].flow
  }

  lemma CountBounds(slots: seq<Slot>)
    ensures Count(slots, Busy) <= |slots|
    ensures Count(slots, Busy) == |slots| <==> forall i :: 0 <= i < |slots| ==> slots[i].busy
  {
  }

  lemma CountSame(a: seq<Slot>, b: seq<Slot>)
    requires |a| == |b| && forall i :: 0 <= i < |a| ==> a[i].busy == b[i].busy
    ensures Count(a, Busy) == Count(b, Busy)
  {
  }

  lemma CountOneMore(a: seq<Slot>, b: seq<Slot>, k: nat)
    requires k < |a| == |b| && !a[k].busy && b[k].busy
    requires forall i :: 0 <= i < |a| && i != k ==> a[i].busy == b[i].busy
    ensures Count(b, Busy) == Count(a, Busy) + 1
  {
    if k == |a| - 1 {
      CountSame(a[..k], b[..k]);
    } else {
      CountOneMore(a[..|a| - 1], b[..|b| - 1], k);
    }
  }

  lemma CountAged(a: seq<Slot>, b: seq<Slot>, now: int)
    requires |a| == |b| && forall i :: 0 <= i < |a| ==> b[i].busy == (a[i].busy && !Aged(a[i], now))
    ensures Count(b, Busy) == Count(a, Busy) - Count(a, s => Aged(s, now))
  {
  }

  /** Allocation fails exactly when all 32 slots are busy, and otherwise yields a free slot. */
  lemma AllocFailsIffFull(t: Table)
    requires Consistent(t)
    ensures AllocIndex(t) < 0 <==> forall i :: 0 <= i < |t.slots| ==> t.slots[i].busy
    ensures AllocIndex(t) >= 0 ==> AllocIndex(t) < SLOTS && !t.slots[AllocIndex(t)].busy
  {
    CountBounds(t.slots);
  }

  /** How a step changes what the allocator looks at. */
  lemma StepSlots(t: Table, e: Event, i: nat)
    requires i < |t.slots|
    ensures var s, s', touch := t.slots[i], Step(t, e).slots[i], Touch(t, e, i);
            if touch.Expire? then s'.busy == false && s'.flow == s.flow
            else if touch.Alloc? then s'.busy && s'.flow == touch.m.pkt.flow
            else s'.busy == s.busy && s'.flow == s.flow
  {
    hide Touch, SlotStep;
    StepKeepsFlow(t.slots[i], Touch(t, e, i));
  }

  lemma AgeConsistent(t: Table, now: int)
    requires Consistent(t)
    ensures Consistent(Step(t, Age(now)))
  {
    hide SlotStep;
    var t' := Step(t, Age(now));
    forall i | 0 <= i < |t.slots|
      ensures t'.slots[i].busy == (t.slots[i].busy && !(AgeingDue(t, now) && Aged(t.slots[i], now)))
      ensures t'.slots[i].flow == t.slots[i].flow
    {
      StepSlots(t, Age(now), i);
    }
    if AgeingDue(t, now) {
      CountAged(t.slots, t'.slots, now);
    } else {
      CountSame(t.slots, t'.slots);
    }
  }

  lemma DeliverConsistent(t: Table, e: Event)
    requires Consistent(t) && Allocates(t, e)
    ensures Consistent(Step(t, e))
  {
    hide SlotStep, Find;
    var t', k := Step(t, e), AllocIndex(t);
    AllocFailsIffFull(t);
    forall i | 0 <= i < |t.slots|
      ensures t'.slots[i].busy == (i == k || t.slots[i].busy)
      ensures t'.slots[i].flow == if i == k then e.m.pkt.flow else t.slots[i].flow
    {
      StepSlots(t, e, i);
    }
    CountOneMore(t.slots, t'.slots, k);
  }

  /** Every step keeps the allocator's state consistent. */
  lemma StepConsistent(t: Table, e: Event)
    requires Consistent(t)
    ensures Consistent(Step(t, e))
  {
    hide SlotStep, Find;
    if e.Age? {
      AgeConsistent(t, e.now);
    } else if Allocates(t, e) {
      DeliverConsistent(t, e);
    } else {
      var t' := Step(t, e);
      forall i | 0 <= i < |t.slots|
        ensures t'.slots[i].busy == t.slots[i].busy && t'.slots[i].flow == t.slots[i].flow
      {
        StepSlots(t, e, i);
      }
      CountSame(t.slots, t'.slots);
    }
  }

  lemma {:induction false} RunConsistent(t: Table, es: seq<Event>)
    requires Consistent(t)
    ensures Consistent(Run(t, es))
  {
    if es != [] {
      RunConsistent(t, es[..|es| - 1]);
      StepConsistent(Run(t, es[..|es| - 1]), es[|es| - 1]);
    }
  }

  // ------------------------------------------------------------------
  // A run of the table seen from one slot

  function Project(t: Table, es: seq<Event>, i: nat): seq<SlotEvent>
    requires i < |t.slots|
  {
    if es == [] then []
    else
      var before := Run(t, es[..|es| - 1]);
      RunShape(t, es[..|es| - 1]);
      Project(t, es[..|es| - 1], i) + [Touch(before, es[|es| - 1], i)]
  }

  /** Slots evolve independently: a slot after a run is its own run over its projection. */
  lemma {:induction false} SlotsAreIndependent(t: Table, es: seq<Event>, i: nat)
    requires i < |t.slots|
    ensures |Run(t, es).slots| == |t.slots|
    ensures Run(t, es).slots[i] == SlotRun(t.slots[i], Project(t, es, i)).slot
  {
    hide SlotStep, Touch;
    if es != [] {
      SlotsAreIndependent(t, es[..|es| - 1], i);
      SlotRunSnoc(t.slots[i], Project(t, es[..|es| - 1], i), Touch(Run(t, es[..|es| - 1]), es[|es| - 1], i));
    }
  }

  /** In every run of the whole filter, with all flows, timers and send reports interleaved at will, and
      whatever the 32-bit numbers: from the moment a slot is allocated until it expires, its flow loses no
      acknowledgement, whether the slot was empty or still held another flow's. The numbers are those of
      the run itself where 32 bits can order them. */
  lemma FlowNeverLosesAck(t: Table, m: AckMsg, now: int, i: nat, es: seq<Event>)
    requires i < |t.slots| && Touch(t, Deliver(m, now), i) == Alloc(m, now)
    requires forall e :: e in Project(Step(t, Deliver(m, now)), es, i) ==> Live(e) && !Offers(e, t.slots[i].held)
    ensures var t0, x := Step(t, Deliver(m, now)), t.slots[i].held;
            var p := Project(t0, es, i);
            var q := Unwrapped(m.pkt.ack, p);
            && NothingLost(m.pkt.ack, MaxAck(m.pkt.ack, q), SetAside(SlotRun(t0.slots[i], q), x))
            && (x.None? ==> SetAside(SlotRun(t0.slots[i], q), x) == SlotRun(t0.slots[i], q))
            && i < |Run(t0, es).slots| && SameSlot(Run(t0, es).slots[i], SlotRun(t0.slots[i], q).slot)
            && SameSeq(SlotRun(t0.slots[i], p).dropped, SlotRun(t0.slots[i], q).dropped)
            && SameSeq(SlotRun(t0.slots[i], p).released, SlotRun(t0.slots[i], q).released)
            && (Ordered(m.pkt.ack, p) ==> q == p)
  {
    var t0 := Step(t, Deliver(m, now));
    assert t0.slots[i].busy && t0.slots[i].held == t.slots[i].held && t0.slots[i].front == Wrap32(m.pkt.ack);
    hide *;
    SlotsAreIndependent(t0, es, i);
    NoAckLostInAnyStream(t0.slots[i], m.pkt.ack, Project(t0, es, i));
    UnwrappedIsTheOne(m.pkt.ack, Project(t0, es, i));
  }

  /** The fate of a held ACK in every run of the whole filter, past its slot's expiry and recycling. */
  lemma HeldAckFateInTable(t: Table, i: nat, es: seq<Event>, x: AckMsg)
    requires i < |t.slots| && t.slots[i].held == Some(x)
    requires forall e :: e in Project(t, es, i) ==> Gives(e) != Some(x)
    ensures var r, fate := SlotRun(t.slots[i], Project(t, es, i)), FateIn(t.slots[i], Project(t, es, i));
            && i < |Run(t, es).slots| && Run(t, es).slots[i] == r.slot
            && (fate.Kept? <==> Run(t, es).slots[i].held == Some(x))
            && (fate.LetGo? <==> x in r.released)
            && (fate.Lost? <==> x in r.dropped)
  {
    hide *;
    SlotsAreIndependent(t, es, i);
    HeldAckFate(t.slots[i], Project(t, es, i), x);
  }

  /** Bounded suppression in every run of the whole filter: if what a flow's slot lets out is reported
      before its next ACK, ten accepted ACKs let at least one out. */
  lemma FlowSuppressionIsBounded(t: Table, i: nat, es: seq<Event>)
    requires i < |t.slots| && t.slots[i].busy
    requires var p := Project(t, es, i);
             && (forall e :: e in p ==> Live(e))
             && Prompt(t.slots[i].inSend, t.slots[i], p)
             && AcceptedCount(t.slots[i], p) >= DROP_LIMIT
    ensures var r := SlotRun(t.slots[i], Project(t, es, i));
            r.released != [] && i < |Run(t, es).slots| && Run(t, es).slots[i] == r.slot
  {
    hide *;
    SlotsAreIndependent(t, es, i);
    BoundedSuppression(t.slots[i], Project(t, es, i));
  }

  /** The PSH shortcut in every run of the whole filter: once a segment that pushes data up to `p` has been
      received on a flow, the flow's first accepted ACK beyond `p` is handed back at once, whatever
      happened in between. */
  lemma FlowPushIsHonoured(t: Table, flow: Flow, p: int, i: nat, es: seq<Event>, m: AckMsg, now: int)
    requires t.enable && i < |t.slots| && MatchIndex(t, flow) == i
    requires var t0 := Step(t, Receive(flow, Wrap32(p)));
             forall e :: e in Project(t0, es, i) ==> StaysBelow(e, p)
    requires var t1 := Run(Step(t, Receive(flow, Wrap32(p))), es);
             && i < |t1.slots| && Touch(t1, Deliver(m, now), i) == Ack(m, now)
             && Accepts(t1.slots[i], m) && m.pkt.ack > p && SeqNum.InWindow(m.pkt.ack, p)
    ensures SlotOutcome(Run(Step(t, Receive(flow, Wrap32(p))), es), Deliver(m, now), i).returned == Some(m)
  {
    var t0 := Step(t, Receive(flow, Wrap32(p)));
    assert Marked(t0.slots[i], p);
    SlotsAreIndependent(t0, es, i);
    hide Step, Run, Project, Touch, StaysBelow, Marked, Accepts, SlotStep;
    PushIsHonoured(t0.slots[i], p, Project(t0, es, i));
    MarkedSlotSends(Run(t0, es).slots[i], p, m, now);
  }

  // ------------------------------------------------------------------
  // Ageing and the switch

  /** Which slots an update frees: those idle for more than four seconds, if the last sweep was more than
      four seconds ago. */
  lemma AgeingExact(t: Table, now: int, i: nat)
    requires i < |t.slots|
    ensures var t' := Step(t, Age(now));
            && t'.lastTime == (if now > t.lastTime + 4000 then now else t.lastTime)
            && (t'.slots[i].busy <==>
                  t.slots[i].busy && (now <= t.lastTime + 4000 || now <= t.slots[i].lastTime + 4000))
  {
  }

  /** A flow is not forgotten within four seconds of its last ACK, accepted or not. */
  lemma RecentFlowKept(t: Table, m: AckMsg, now: int, i: nat, later: int)
    requires i < |t.slots| && (Touch(t, Deliver(m, now), i).Ack? || Touch(t, Deliver(m, now), i).Alloc?)
    requires later <= now + 4000
    ensures t.slots[i].busy || Touch(t, Deliver(m, now), i).Alloc? ==>
              Step(Step(t, Deliver(m, now)), Age(later)).slots[i].busy
  {
    var t0 := Step(t, Deliver(m, now));
    assert t0.slots[i].lastTime == now;
    StepSlots(t, Deliver(m, now), i);
    AgeingExact(t0, later, i);
    hide Step, SlotStep, Touch;
  }

  /** A filter that is switched off holds back and drops nothing. */
  lemma SwitchedOffIsInert(t: Table, m: Msg, now: int, i: nat)
    requires i < |t.slots| && !t.enable
    ensures var o := SlotOutcome(t, Deliver(m, now), i);
            o.slot.held == t.slots[i].held && o.dropped.None? && o.sent.None?
  {
  }

  // ------------------------------------------------------------------
  // A flow that loses its last acknowledgement

  /** Only slot 0 may be in use. */
  predicate Alone(t: Table, s: Slot) {
    Consistent(t) && t.enable && t.slots[0] == s && forall i :: 1 <= i < SLOTS ==> !t.slots[i].busy
  }

  /** What happens to slot 0 when only it is in use. */
  lemma AloneStep(t: Table, s: Slot, e: Event)
    requires Alone(t, s) && (e.Deliver? || e.TimerFires? || e.Age?)
    requires e.Deliver? ==> e.m.pkt.PureAck? && if s.busy then s.flow == e.m.pkt.flow else t.freeIndex == 0
    requires e.TimerFires? ==> e.slot == 0
    requires e.Age? ==> AgeingDue(t, e.now) && Aged(s, e.now)
    ensures Touch(t, e, 0) == (match e case Deliver(m, now) => (if s.busy then Ack(m, now) else Alloc(m, now))
                                       case TimerFires(_) => Timer
                                       case _ => Expire)
    ensures Alone(Step(t, e), SlotStep(s, Touch(t, e, 0)).slot)
    ensures Step(t, e).lastTime == if e.Age? then e.now else t.lastTime
    ensures e.Age? ==> Step(t, e).freeIndex == 0
  {
    StepConsistent(t, e);
    AllocFailsIffFull(t);
    hide SlotStep, Count;
    forall i | 1 <= i < SLOTS ensures !Step(t, e).slots[i].busy {
      StepSlots(t, e, i);
    }
  }

  lemma RunSnoc(t: Table, es: seq<Event>, e: Event, i: nat)
    requires i < |t.slots|
    ensures |Run(t, es).slots| == |t.slots|
    ensures Run(t, es + [e]) == Step(Run(t, es), e)
    ensures Project(t, es + [e], i) == Project(t, es, i) + [Touch(Run(t, es), e, i)]
  {
    hide Touch, Step;
    RunShape(t, es);
    assert (es + [e])[..|es + [e]| - 1] == es;
  }

  const HERE: Flow := Flow(1, 2, 3, 4)
  const THERE: Flow := Flow(5, 6, 7, 8)

  /** The k-th ACK of a flow. */
  function Nth(flow: Flow, k: nat): AckMsg
    requires k < 10
  {
    Msg(flow.source as nat * 10 + k, PureAck(flow, 100 * k, 0))
  }

  /** The k-th event of the run, and what it means for slot 0. */
  function LosingEvent(k: nat): Event {
    if k < 3 then Deliver(Nth(HERE, k), k) else if k == 3 then TimerFires(0) else if k == 4 then Age(5000)
    else if k == 5 then Deliver(Nth(THERE, 0), 5000) else Deliver(Nth(THERE, 1), 5001)
  }

  function LosingTouch(k: nat): SlotEvent {
    if k == 0 then Alloc(Nth(HERE, 0), 0) else if k < 3 then Ack(Nth(HERE, k), k) else if k == 3 then Timer
    else if k == 4 then Expire else if k == 5 then Alloc(Nth(THERE, 0), 5000) else Ack(Nth(THERE, 1), 5001)
  }

  function Losing(k: nat): seq<Event> {
    if k == 0 then [] else Losing(k - 1) + [LosingEvent(k - 1)]
  }

  function LosingTouches(k: nat): seq<SlotEvent> {
    if k == 0 then [] else LosingTouches(k - 1) + [LosingTouch(k - 1)]
  }

  /** Slot 0 after `k` of these events. */
  predicate Stage(s: Slot, k: nat) {
    && s.busy == (1 <= k <= 4 || k >= 6)
    && s.held == (if k <= 2 then None else if k <= 6 then Some(Nth(HERE, 2)) else Some(Nth(THERE, 1)))
    && s.inSend == (if k <= 1 then None else Some(Nth(HERE, 1)))
    && (s.busy ==> s.flow == (if k <= 4 then HERE else THERE) && !s.psh)
    && (s.busy ==> s.front == if k == 1 || k == 6 then 0 else if k == 2 || k == 7 then 100 else 200)
    && (k == 1 || k == 6 ==> s.dropCnt == DROP_LIMIT) && (k == 2 ==> s.dropCnt == 0) && (k == 4 ==> s.lastTime == 2)
    && (k == 3 ==> s.lastTime == 2)
  }

  function DroppedBy(k: nat): seq<AckMsg> {
    if k < 7 then [] else [Nth(HERE, 2)]
  }

  function ReleasedBy(k: nat): seq<AckMsg> {
    if k == 0 then [] else if k == 1 then [Nth(HERE, 0)] else if k <= 5 then [Nth(HERE, 0), Nth(HERE, 1)]
    else [Nth(HERE, 0), Nth(HERE, 1), Nth(THERE, 0)]
  }

  lemma StageStep(s: Slot, k: nat)
    requires k < 7 && Stage(s, k)
    ensures var o := SlotStep(s, LosingTouch(k));
            && Stage(o.slot, k + 1)
            && AddTo(DroppedBy(k), o.dropped) == DroppedBy(k + 1)
            && AddTo(ReleasedBy(k), o.LetOut()) == ReleasedBy(k + 1)
  {
  }

  lemma {:induction false} LosingSlot(s: Slot, k: nat)
    requires Stage(s, 0) && k <= 7
    ensures var r := SlotRun(s, LosingTouches(k));
            Stage(r.slot, k) && r.dropped == DroppedBy(k) && r.released == ReleasedBy(k)
  {
    hide Stage, SlotStep, LosingTouch;
    if k > 0 {
      LosingSlot(s, k - 1);
      StageStep(SlotRun(s, LosingTouches(k - 1)).slot, k - 1);
      SlotRunSnoc(s, LosingTouches(k - 1), LosingTouch(k - 1));
    }
  }

  predicate LosingTable(t: Table, k: nat) {
    && Shape(t) && Alone(t, t.slots[0]) && Stage(t.slots[0], k)
    && (k <= 4 ==> t.lastTime == 0) && (k == 0 || k == 5 ==> t.freeIndex == 0)
  }

  lemma LosingStep(t: Table, k: nat)
    requires k < 7 && LosingTable(t, k)
    ensures Shape(t) && Touch(t, LosingEvent(k), 0) == LosingTouch(k)
    ensures LosingTable(Step(t, LosingEvent(k)), k + 1)
  {
    AloneStep(t, t.slots[0], LosingEvent(k));
    StageStep(t.slots[0], k);
    hide SlotStep, Touch, Step;
  }

  lemma {:induction false} LosingProjection(t: Table, k: nat)
    requires LosingTable(t, 0) && k <= 7
    ensures LosingTable(Run(t, Losing(k)), k)
    ensures Shape(t) && Project(t, Losing(k), 0) == LosingTouches(k)
  {
    hide LosingTable, Touch, Step, LosingEvent, LosingTouch;
    assert Shape(t) by { LosingStep(t, 0); }
    if k > 0 {
      LosingProjection(t, k - 1);
      LosingStep(Run(t, Losing(k - 1)), k - 1);
      RunSnoc(t, Losing(k - 1), LosingEvent(k - 1), 0);
    }
  }

  /** From the initial table: a flow's second ACK is handed back and its sending never reported, the third
      is held, the timer finds the send outstanding, the slot ages and goes to another flow, whose second
      ACK displaces the held one. The first flow's most advanced acknowledgement is never let out. */
  lemma RecycledSlotLosesAck(t: Table, s: Slot)
    requires Alone(t, s) && t.freeIndex == 0 && t.lastTime == 0 && !s.busy && s.held.None? && s.inSend.None?
    ensures Project(t, Losing(7), 0) == LosingTouches(7)
    ensures var r := SlotRun(s, LosingTouches(7));
            r.dropped == [Nth(HERE, 2)] && r.released == [Nth(HERE, 0), Nth(HERE, 1), Nth(THERE, 0)]
  {
    LosingProjection(t, 7);
    LosingSlot(s, 7);
  }

  // ------------------------------------------------------------------
  // Ownership of message buffers over whole runs

  /** Where buffer `x` has gone: counts of hand-overs since the start of the run. */
  datatype Ledger = Ledger(given: nat, returned: nat, sent: nat, dropped: nat)

  /** Buffer `x` handed straight back because no slot took it. */
  function PassedThrough(t: Table, e: Event, x: Msg): nat {
    if e.Deliver? && e.m == x && (forall i :: 0 <= i < |t.slots| ==> Gives(Touch(t, e, i)).None?) then 1 else 0
  }

  function HeldCount(slots: seq<Slot>, x: Msg): nat {
    if slots == [] then 0 else HeldCount(slots[..|slots| - 1], x) + Is(slots[|slots| - 1].held, x)
  }

  /** Entries made by the first `n` slots in one step. */
  function Tally(t: Table, e: Event, x: Msg, n: nat): Ledger
    requires n <= |t.slots|
  {
    if n == 0 then Ledger(0, 0, 0, 0)
    else
      var l := Tally(t, e, x, n - 1);
      var o := SlotOutcome(t, e, n - 1);
      Ledger(l.given + Is(Gives(Touch(t, e, n - 1)), x), l.returned + Is(o.returned, x),
             l.sent + Is(o.sent, x), l.dropped + Is(o.dropped, x))
  }

  function Post(l: Ledger, t: Table, e: Event, x: Msg): Ledger {
    var d := Tally(t, e, x, |t.slots|);
    Ledger(l.given + (if e.Deliver? && e.m == x then 1 else 0),
           l.returned + d.returned + PassedThrough(t, e, x), l.sent + d.sent, l.dropped + d.dropped)
  }

  function RunLedger(t: Table, es: seq<Event>, x: Msg): Ledger {
    if es == [] then Ledger(0, 0, 0, 0)
    else Post(RunLedger(t, es[..|es| - 1], x), Run(t, es[..|es| - 1]), es[|es| - 1], x)
  }

  lemma {:induction false} TallyConserves(t: Table, e: Event, x: Msg, n: nat)
    requires n <= |t.slots|
    ensures var d := Tally(t, e, x, n);
            HeldCount(t.slots[..n], x) + d.given ==
            d.returned + d.sent + d.dropped + HeldCount(NextSlots(t, e)[..n], x)
  {
    hide SlotStep, Touch;
    if n > 0 {
      TallyConserves(t, e, x, n - 1);
      SlotConserves(t.slots[n - 1], Touch(t, e, n - 1), x);
      assert t.slots[..n][..n - 1] == t.slots[..n - 1];
      assert NextSlots(t, e)[..n][..n - 1] == NextSlots(t, e)[..n - 1];
    }
  }

  /** At most one slot takes the delivered buffer, and the buffer is handed back if none does. */
  lemma {:induction false} GivenOnce(t: Table, e: Event, x: Msg, n: nat)
    requires n <= |t.slots|
    ensures Tally(t, e, x, n).given ==
            if e.Deliver? && e.m == x && (exists i :: 0 <= i < n && Gives(Touch(t, e, i)).Some?) then 1 else 0
  {
    if n > 0 {
      GivenOnce(t, e, x, n - 1);
    }
  }

  /** Buffers are conserved: in every run, however slots are recycled and even past deinit, each
      buffer was handed to the filter exactly as often as it was handed back, sent by the timer or
      dropped, plus the slots that hold it now. */
  lemma {:induction false} BuffersConserved(t: Table, es: seq<Event>, x: Msg)
    ensures var l := RunLedger(t, es, x);
            HeldCount(t.slots, x) + l.given == l.returned + l.sent + l.dropped + HeldCount(Run(t, es).slots, x)
  {
    hide SlotStep, Touch, Tally, HeldCount, SlotOutcome;
    if es != [] {
      var init, e := es[..|es| - 1], es[|es| - 1];
      BuffersConserved(t, init, x);
      var before := Run(t, init);
      TallyConserves(before, e, x, |before.slots|);
      GivenOnce(before, e, x, |before.slots|);
      assert before.slots[..|before.slots|] == before.slots;
      assert NextSlots(before, e)[..|before.slots|] == Step(before, e).slots;
    }
  }

  /** A buffer handed over once, to a filter that did not hold it, is in exactly one place. */
  lemma EachBufferInOnePlace(t: Table, es: seq<Event>, x: Msg)
    requires HeldCount(t.slots, x) == 0 && RunLedger(t, es, x).given == 1
    ensures var l := RunLedger(t, es, x);
            var h := HeldCount(Run(t, es).slots, x);
            (l.returned, l.sent, l.dropped, h) in {(1, 0, 0, 0), (0, 1, 0, 0), (0, 0, 1, 0), (0, 0, 0, 1)}
  {
    hide *;
    BuffersConserved(t, es, x);
  }
}
