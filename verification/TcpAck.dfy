/** The ACK filter as the driver keeps it: slots, counters and the cached free index are updated in
    place, and every method is proved against the table's value semantics. */
module TcpAck {
  import opened Common
  import opened AckSlot
  import opened AckTable

  class AckFilter {
    var enable: bool
    var maxNum: int
    var freeIndex: int
    var lastTime: int
    const slots: array<Slot>

    ghost predicate Valid()
      reads this, slots
    {
      slots.Length == SLOTS && Consistent(View())
    }

    ghost function View(): Table
      reads this, slots
    {
      Table(enable, maxNum, freeIndex, lastTime, slots[..])
    }

    /** tcp_ack_init */
    constructor (blank: Slot, now: int)
      requires !blank.busy && blank.held.None? && blank.inSend.None?
      ensures Valid() && fresh(slots) && freeIndex == 0 && this.lastTime == now
      ensures Alone(View(), blank.(lastTime := now))
      ensures forall i :: 0 <= i < SLOTS ==> slots[i] == blank.(lastTime := now)
    {
      enable := true;
      maxNum := 0;
      freeIndex := 0;
      lastTime := now;
      slots := new Slot[SLOTS](_ => blank.(lastTime := now));
      new;
      NoneBusy(slots[..]);
    }

    /** tcp_ack_match */
    method Match(flow: Flow) returns (r: int)
      requires slots.Length == SLOTS
      ensures r == MatchIndex(View(), flow)
      ensures -1 <= r < SLOTS
      ensures r >= 0 ==> Matches(slots[r], flow)
      ensures r < 0 ==> forall j :: 0 <= j < SLOTS ==> !Matches(slots[j], flow)
    {
      r := -1;
      var i := 0;
      while r < 0 && i < SLOTS
        invariant 0 <= i <= SLOTS && -1 <= r < i
        invariant r < 0 ==> forall j :: 0 <= j < i ==> !Matches(slots[j], flow)
        invariant r >= 0 ==> Matches(slots[r], flow) && forall j :: 0 <= j < r ==> !Matches(slots[j], flow)
        decreases SLOTS - i
      {
        if slots[i].busy && slots[i].flow == flow {
          r := i;
        }
        i := i + 1;
      }
      FindIsFirst(slots[..], (s: Slot) => Matches(s, flow), r);
    }

    /** tcp_ack_alloc_index */
    method AllocSlot() returns (r: int)
      requires Valid()
      modifies this`maxNum, this`freeIndex
      ensures r == AllocIndex(old(View()))
      ensures r >= 0 ==> maxNum == old(maxNum) + 1 && freeIndex == -1
      ensures r < 0 ==> maxNum == old(maxNum) && freeIndex == old(freeIndex)
    {
      if maxNum == SLOTS {
        return -1;
      }
      if freeIndex >= 0 {
        r := freeIndex;
        freeIndex := -1;
        maxNum := maxNum + 1;
        return;
      }
      r := -1;
      var i := 0;
      while r < 0 && i < SLOTS
        invariant 0 <= i <= SLOTS && -1 <= r < i
        invariant r < 0 ==> maxNum == old(maxNum) && freeIndex == old(freeIndex)
        invariant r < 0 ==> forall j :: 0 <= j < i ==> slots[j].busy
        invariant r >= 0 ==> maxNum == old(maxNum) + 1 && freeIndex == -1
        invariant r >= 0 ==> !slots[r].busy && forall j :: 0 <= j < r ==> slots[j].busy
        decreases SLOTS - i
      {
        if !slots[i].busy {
          freeIndex := -1;
          maxNum := maxNum + 1;
          r := i;
        }
        i := i + 1;
      }
      FindIsFirst(slots[..], (s: Slot) => !s.busy, r);
    }

    /** tcp_ack_update */
    method Update(now: int)
      requires Valid()
      modifies this, slots
      ensures Valid()
      ensures View() == Step(old(View()), Age(now))
    {
      hide Consistent, SlotStep, SlotOutcome, Count, Find, NextSlots;
      ghost var t := View();
      StepConsistent(t, Age(now));
      AgeSweeps(t, now);
      if now > lastTime + OLD_TIME {
        lastTime := now;
        ghost var p := (s: Slot) => Aged(s, now);
        var i := SLOTS;
        ScanStart(t.slots, p);
        while i > 0
          invariant 0 <= i <= SLOTS
          invariant enable == t.enable && lastTime == now
          invariant forall j :: 0 <= j < i ==> slots[j] == t.slots[j]
          invariant forall j :: i <= j < SLOTS ==> slots[j] == Swept(t.slots[j], now)
          invariant maxNum == t.maxNum - (Count(t.slots, p) - Count(t.slots[..i], p))
          invariant freeIndex == (if Find(t.slots, p, i) >= 0 then Find(t.slots, p, i) else t.freeIndex)
        {
          i := i - 1;
          ScanStep(t.slots, p, i);
          if slots[i].busy && now > slots[i].lastTime + OLD_TIME {
            freeIndex := i;
            maxNum := maxNum - 1;
            slots[i] := slots[i].(busy := false);
          }
        }
      }
      assert slots[..] == NextSlots(t, Age(now));
      assert View() == Step(t, Age(now));
    }

    /** tcp_ack_handle_new. The result says whether the filter kept or dropped the buffer;
        `dropped` is the buffer freed on the way. */
    method HandleNew(i: nat, m: AckMsg, now: int) returns (absorbed: bool, dropped: Option<AckMsg>)
      requires i < slots.Length
      requires Rescaled(slots[i], m.pkt.winScale) == slots[i]
      modifies slots
      ensures var o := HandleAck(old(slots[i]), m, now);
              && slots[..] == old(slots[..])[i := o.slot]
              && dropped == o.dropped
              && absorbed == o.returned.None?
    {
      var quick := false;
      absorbed := false;
      dropped := None;
      slots[i] := slots[i].(lastTime := now);
      if SeqNum.Before(slots[i].front, SeqOf(m)) {
        if slots[i].held.Some? {
          dropped := slots[i].held;
          slots[i] := slots[i].(held := None);
        }
        if slots[i].psh && !SeqNum.Before(SeqOf(m), slots[i].pshSeq) {
          slots[i] := slots[i].(psh := false);
          quick := true;
        } else {
          slots[i] := slots[i].(dropCnt := slots[i].dropCnt + 1);
        }
        slots[i] := slots[i].(front := SeqOf(m));
        if quick || (slots[i].inSend.None? && slots[i].dropCnt >= DROP_LIMIT) {
          slots[i] := slots[i].(dropCnt := 0, inSend := Some(m), armed := false);
        } else {
          absorbed := true;
          slots[i] := slots[i].(held := Some(m));
          if !slots[i].armed {
            slots[i] := slots[i].(armed := true);
          }
        }
      } else {
        dropped := Some(m);
        absorbed := true;
      }
    }

    /** filter_send_tcp_ack. Result true means the caller must not transmit the buffer. */
    method FilterSend(m: Msg, now: int) returns (filtered: bool, dropped: Option<AckMsg>)
      requires Valid()
      modifies this, slots
      ensures Valid()
      ensures m.pkt.Oversized? ==> View() == old(View()) && !filtered && dropped.None?
      ensures !m.pkt.Oversized? ==>
                var t := Step(old(View()), Age(now));
                var k := if m.pkt.PureAck? then MatchIndex(t, m.pkt.flow) else -1;
                && View() == Step(t, Deliver(m, now))
                && filtered == (k >= 0 && t.enable && HandleAck(t.slots[k], m, now).returned.None?)
                && dropped == if k >= 0 && t.enable then HandleAck(t.slots[k], m, now).dropped else None
    {
      if m.pkt.Oversized? {
        return false, None;
      }
      Update(now);
      filtered, dropped := Classified(m, now);
    }

    /** filter_send_tcp_ack after ageing: match, handle, or allocate and fill. */
    method Classified(m: Msg, now: int) returns (filtered: bool, dropped: Option<AckMsg>)
      requires Valid()
      modifies this, slots
      ensures Valid()
      ensures var t, k := old(View()), if m.pkt.PureAck? then MatchIndex(old(View()), m.pkt.flow) else -1;
              && View() == Step(t, Deliver(m, now))
              && filtered == (k >= 0 && t.enable && HandleAck(t.slots[k], m, now).returned.None?)
              && dropped == if k >= 0 && t.enable then HandleAck(t.slots[k], m, now).dropped else None
    {
      hide HandleAck, Consistent, Find;
      filtered, dropped := false, None;
      ghost var t := View();
      StepConsistent(t, Deliver(m, now));
      if !m.pkt.PureAck? {
        assert NextSlots(t, Deliver(m, now)) == t.slots;
        return;
      }
      var k := Match(m.pkt.flow);
      if k >= 0 {
        if m.pkt.winScale != 0 && slots[k].winScale != m.pkt.winScale {
          slots[k] := slots[k].(winScale := m.pkt.winScale);
        }
        HandleAfterRescale(t.slots[k], m, now);
        if enable {
          filtered, dropped := HandleNew(k, m, now);
        }
        OneSlotChanges(t, Deliver(m, now), k);
        assert View() == Step(t, Deliver(m, now));
        return;
      }
      var f := AllocSlot();
      AllocFailsIffFull(t);
      if f >= 0 {
        slots[f] := slots[f].(busy := true, psh := false, lastTime := now, dropCnt := DROP_LIMIT,
                              winScale := if m.pkt.winScale != 0 then m.pkt.winScale else 1,
                              flow := m.pkt.flow, front := SeqOf(m));
        OneSlotChanges(t, Deliver(m, now), f);
      }
      assert slots[..] == NextSlots(t, Deliver(m, now));
      assert View() == Step(t, Deliver(m, now));
    }

    /** filter_rx_tcp_ack, for a received segment that carries ACK and PSH. */
    method FilterReceive(flow: Flow, upTo: u32)
      requires Valid()
      modifies slots
      ensures Valid()
      ensures View() == Step(old(View()), Receive(flow, upTo))
    {
      ghost var t := View();
      StepConsistent(t, Receive(flow, upTo));
      if enable {
        var k := Match(flow);
        if k >= 0 {
          slots[k] := slots[k].(psh := true, pshSeq := upTo);
        }
      }
      assert slots[..] == NextSlots(t, Receive(flow, upTo));
    }

    /** tcp_ack_timeout: the buffer to transmit, if any. */
    method Timeout(i: nat) returns (sent: Option<AckMsg>)
      requires Valid() && i < SLOTS
      modifies slots
      ensures Valid()
      ensures View() == Step(old(View()), TimerFires(i))
      ensures sent == SlotOutcome(old(View()), TimerFires(i), i).sent
    {
      ghost var t := View();
      StepConsistent(t, TimerFires(i));
      sent := None;
      slots[i] := slots[i].(armed := false);
      var held := slots[i].held;
      if slots[i].busy && held.Some? && slots[i].inSend.None? {
        slots[i] := slots[i].(held := None, dropCnt := 0, inSend := held);
        sent := held;
      }
      assert slots[..] == NextSlots(t, TimerFires(i));
    }

    /** move_tcpack_msg */
    method MoveMsg(m: Msg)
      requires Valid()
      modifies slots
      ensures Valid()
      ensures View() == Step(old(View()), Done(m))
    {
      ghost var t := View();
      StepConsistent(t, Done(m));
      if enable {
        for i := 0 to SLOTS
          invariant forall j :: 0 <= j < i ==> slots[j] == SlotOutcome(t, Done(m), j).slot
          invariant forall j :: i <= j < SLOTS ==> slots[j] == t.slots[j]
        {
          if slots[i].busy && slots[i].inSend.Some? && slots[i].inSend.value.id == m.id {
            slots[i] := slots[i].(inSend := None);
          }
        }
      }
      assert slots[..] == NextSlots(t, Done(m));
    }

    /** tcp_ack_deinit: the buffers freed, by slot. */
    method Shutdown() returns (dropped: seq<Option<AckMsg>>)
      requires Valid()
      modifies this`enable, slots
      ensures Valid()
      ensures View() == Step(old(View()), Deinit)
      ensures |dropped| == SLOTS
      ensures forall i :: 0 <= i < SLOTS ==> dropped[i] == SlotOutcome(old(View()), Deinit, i).dropped
    {
      ghost var t := View();
      StepConsistent(t, Deinit);
      enable := false;
      dropped := [];
      for i := 0 to SLOTS
        invariant !enable && |dropped| == i
        invariant forall j :: 0 <= j < i ==> slots[j] == SlotOutcome(t, Deinit, j).slot
        invariant forall j :: 0 <= j < i ==> dropped[j] == SlotOutcome(t, Deinit, j).dropped
        invariant forall j :: i <= j < SLOTS ==> slots[j] == t.slots[j]
      {
        dropped := dropped + [slots[i].held];
        slots[i] := slots[i].(armed := false, held := None);
      }
      assert slots[..] == NextSlots(t, Deinit);
      assert View() == Step(t, Deinit);
    }
  }

  /** Recording the window scale first changes nothing that handling the ACK would not. */
  lemma HandleAfterRescale(s: Slot, m: AckMsg, now: int)
    ensures HandleAck(Rescaled(s, m.pkt.winScale), m, now) == HandleAck(s, m, now)
  {
  }

  /** A step that leaves every slot but `k` idle rewrites slot `k` only. */
  lemma OneSlotChanges(t: Table, e: Event, k: nat)
    requires k < |t.slots| && forall i :: 0 <= i < |t.slots| && i != k ==> Touch(t, e, i).Idle?
    ensures NextSlots(t, e) == t.slots[k := SlotOutcome(t, e, k).slot]
  {
  }

  /** What ageing does to one slot. */
  function Swept(s: Slot, now: int): Slot {
    if Aged(s, now) then s.(busy := false) else s
  }

  lemma AgeSweeps(t: Table, now: int)
    ensures |NextSlots(t, Age(now))| == |t.slots|
    ensures forall i :: 0 <= i < |t.slots| ==>
              NextSlots(t, Age(now))[i] == if AgeingDue(t, now) then Swept(t.slots[i], now) else t.slots[i]
  {
  }

  lemma ScanStart(slots: seq<Slot>, p: Slot -> bool)
    ensures Count(slots[..|slots|], p) == Count(slots, p)
    ensures Count(slots[..0], p) == 0
    ensures Find(slots, p, |slots|) == -1
  {
    assert slots[..|slots|] == slots;
  }

  lemma ScanStep(slots: seq<Slot>, p: Slot -> bool, i: nat)
    requires i < |slots|
    ensures Count(slots[..i + 1], p) == Count(slots[..i], p) + if p(slots[i]) then 1 else 0
    ensures Find(slots, p, i) == if p(slots[i]) then i else Find(slots, p, i + 1)
  {
    assert slots[..i + 1][..i] == slots[..i];
  }

  lemma NoneBusy(slots: seq<Slot>)
    requires forall i :: 0 <= i < |slots| ==> !slots[i].busy
    ensures Count(slots, Busy) == 0
  {
  }

  /** A scan that stops at the first hit computes `Find`. */
  lemma FindIsFirst(slots: seq<Slot>, p: Slot -> bool, r: int)
    requires -1 <= r < |slots|
    requires r < 0 ==> forall j :: 0 <= j < |slots| ==> !p(slots[j])
    requires r >= 0 ==> p(slots[r]) && forall j :: 0 <= j < r ==> !p(slots[j])
    ensures r == Find(slots, p, 0)
  {
  }
}
