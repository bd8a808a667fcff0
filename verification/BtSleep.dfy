/** The Bluetooth sleep protocol: handlers that share flags, a wake line and the UART's power. Each
    handler is one step. */
module BtSleep {

  datatype State = State(
    lpm: bool,          // has_lpm_enabled
    proto: bool,        // BT_PROTO
    asleep: bool,       // BT_ASLEEP
    rxTimer: bool,      // BT_RXTIMER
    txIdle: bool,       // BT_TXIDLE
    wake: bool,         // the wake line is asserted
    port: bool,         // bsi->uport is set
    uartOn: bool,       // RTS is raised
    openCount: int)

  datatype Event =
    | SleepWork(hostWake: bool, txEmpty: bool)
    | OutgoingData
    | AllowSleep
    | RxTimerExpires
    | Disable                                     // '0' written to the lpm file
    | Enable(device: bool, found: bool, irq: bool)// anything else written to it

  const INITIAL: State := State(false, false, false, false, false, false, false, true, 1)

  /** hsuart_power: without a port nothing happens. */
  function Power(s: State, on: bool): State {
    if s.port then s.(uartOn := on) else s
  }

  predicate CanSleep(s: State, hostWake: bool) {
    !s.wake && !hostWake && !s.rxTimer && s.port
  }

  /** bluesleep_start */
  function Start(s: State, irq: bool): State {
    if s.proto || s.openCount - 1 != 0 then s
    else if irq then s.(wake := true, proto := true, openCount := 0)
    else s.(wake := true)
  }

  /** bluesleep_stop */
  function Stop(s: State): State {
    if !s.proto then s
    else
      var t := s.(wake := true, proto := false, openCount := s.openCount + 1);
      if t.asleep then Power(t.(asleep := false), true) else t
  }

  function Step(s: State, e: Event): State {
    match e
    case SleepWork(hostWake, txEmpty) =>
      if !s.lpm then s
      else if CanSleep(s, hostWake) then
        if s.asleep || !txEmpty then s else Power(s.(asleep := true), false)
      else if s.asleep then Power(s.(asleep := false, rxTimer := true), true)
      else s   // the wake line may be pulsed, and ends up as it was
    case OutgoingData => if s.wake then s else Power(s.(wake := true, asleep := false, txIdle := false), true)
    case AllowSleep => s.(wake := false, txIdle := true)
    case RxTimerExpires => s.(rxTimer := false)
    case Disable => Stop(s).(lpm := false, port := false)
    case Enable(device, found, irq) =>
      if s.lpm then s else Start(s.(lpm := true, port := if device then found else s.port), irq)
  }

  /** What a character written to the lpm file does. */
  function Written(b: char, device: bool, found: bool, irq: bool): Event {
    if b == '0' then Disable else Enable(device, found, irq)
  }

  function Run(s: State, es: seq<Event>): State {
    if es == [] then s else Step(Run(s, es[..|es| - 1]), es[|es| - 1])
  }

  /** What the protocol is for: the UART is off exactly when asleep, asleep implies protocol on, port
      present and wake line deasserted, and the open count is 1 exactly when the protocol is off. */
  predicate Safe(s: State) {
    && s.uartOn == !s.asleep
    && (s.asleep ==> s.proto && s.port && !s.wake)
    && s.openCount == (if s.proto then 0 else 1)
  }

  /** The mode and the protocol go together, except that without a port the mode can be on alone. */
  predicate Inv(s: State) {
    Safe(s) && (s.proto ==> s.lpm) && (s.lpm && s.port ==> s.proto) && (!s.lpm ==> !s.port)
  }

  /** A refused interrupt request does no harm if there is no port either. */
  predicate Harmless(e: Event) {
    e.Enable? ==> e.irq || !e.device || !e.found
  }

  /** An event keeps the invariant if and only if it is harmless or the mode is already on, when the
      driver makes no request. */
  lemma StepSafe(s: State, e: Event)
    requires Inv(s)
    ensures Safe(s) && Safe(Step(s, e))
    ensures Inv(Step(s, e)) <==> Harmless(e) || s.lpm
  {
  }

  /** No request of the run is refused while a port is found. */
  predicate Granted(s: State, es: seq<Event>) {
    es == [] ||
    (Granted(s, es[..|es| - 1]) && (Harmless(es[|es| - 1]) || Run(s, es[..|es| - 1]).lpm))
  }

  /** In every run, as long as no request is refused while a port is found, the protocol is safe. */
  lemma {:induction false} SleepSafe(es: seq<Event>)
    requires Granted(INITIAL, es)
    ensures Inv(Run(INITIAL, es)) && Safe(Run(INITIAL, es))
  {
    hide Step, Harmless;
    if es != [] {
      hide Safe;
      SleepSafe(es[..|es| - 1]);
      StepSafe(Run(INITIAL, es[..|es| - 1]), es[|es| - 1]);
    }
  }

  /** Exactly when the device falls asleep: in the sleep work, with the mode on, an empty transmitter, and
      wake line, host-wake line and receive timer all clear. */
  lemma FallsAsleepIff(s: State, e: Event)
    requires !s.asleep
    ensures Step(s, e).asleep <==>
            && e.SleepWork? && e.txEmpty && !e.hostWake
            && s.lpm && s.port && !s.wake && !s.rxTimer
  {
    if e.Enable? {
      StaysAwake(s.(lpm := true), if e.device then e.found else s.port, e.irq);
    }
    StopWakes(s);
    hide Start, Stop;
  }

  lemma StaysAwake(s: State, port: bool, irq: bool)
    requires !s.asleep
    ensures !Start(s.(port := port), irq).asleep
  {
  }

  lemma StopWakes(s: State)
    requires !s.asleep
    ensures !Stop(s).asleep
  {
  }

  /** Exactly when it wakes: in the sleep work when it may not sleep, on outgoing data with the wake line
      clear, and when the mode is switched off. The first starts the receive timer, the others assert the
      wake line. */
  lemma WakesIff(s: State, e: Event)
    requires Inv(s) && s.asleep
    ensures !Step(s, e).asleep <==>
            (e.SleepWork? && (e.hostWake || s.rxTimer)) || e.OutgoingData? || e.Disable?
    ensures !Step(s, e).asleep ==> Step(s, e).uartOn && (if e.SleepWork? then Step(s, e).rxTimer else Step(s, e).wake)
  {
  }

  /** Who moves the wake line and the flags besides. */
  lemma LinesMove(s: State, e: Event)
    ensures Step(s, e).wake == (if e.AllowSleep? then false
                                else if e.OutgoingData? then true
                                else if e.Disable? then s.wake || s.proto
                                else if e.Enable? && !s.lpm && !s.proto && s.openCount == 1 then true
                                else s.wake)
    ensures Step(s, e).txIdle == (if e.AllowSleep? then true else if e.OutgoingData? && !s.wake then false else s.txIdle)
    ensures e.RxTimerExpires? ==> !Step(s, e).rxTimer
    ensures e.Disable? ==> !Step(s, e).lpm && !Step(s, e).port && !Step(s, e).proto
  {
  }

  lemma RunSnoc(s: State, es: seq<Event>, e: Event)
    ensures Run(s, es + [e]) == Step(Run(s, es), e)
  {
  }

  /** What a harmful event leads to: it changes nothing if the mode is on; if it is off, the mode comes on
      without the protocol, the device can then fall asleep, and switching the mode off loses the port with
      the UART still powered down. */
  lemma RefusedIrqStrandsUart(s: State, e: Event)
    requires Inv(s) && !Harmless(e)
    ensures s.lpm ==> Step(s, e) == s
    ensures !s.lpm ==> var t := Run(s, [e, AllowSleep, RxTimerExpires, SleepWork(false, true)]);
                       !Safe(t) && t.asleep && !t.proto
    ensures !s.lpm ==> var t := Run(s, [e, AllowSleep, RxTimerExpires, SleepWork(false, true), Disable]);
                       !Safe(t) && !t.uartOn && !t.port && t.asleep && !t.lpm && !t.proto && t.openCount == 1
  {
    var b, c, d := AllowSleep, RxTimerExpires, SleepWork(false, true);
    RunSnoc(s, [], e);
    RunSnoc(s, [] + [e], b);
    RunSnoc(s, [] + [e] + [b], c);
    RunSnoc(s, [] + [e] + [b] + [c], d);
    RunSnoc(s, [] + [e] + [b] + [c] + [d], Disable);
    assert [] + [e] + [b] + [c] + [d] == [e, b, c, d];
    assert [] + [e] + [b] + [c] + [d] + [Disable] == [e, b, c, d, Disable];
  }

  /** Switching the mode on again, with the request granted, brings a stranded UART back. */
  lemma StrandedUartRecovers(s: State, hostWake: bool, txEmpty: bool)
    requires !s.lpm && !s.proto && !s.port && s.asleep && !s.uartOn && s.openCount == 1
    ensures var t := Run(s, [Enable(true, true, true), SleepWork(hostWake, txEmpty)]);
            Inv(t) && t.uartOn && !t.asleep
  {
    var a, b := Enable(true, true, true), SleepWork(hostWake, txEmpty);
    RunSnoc(s, [], a);
    RunSnoc(s, [] + [a], b);
    assert [] + [a] + [b] == [a, b];
  }

  /** The module's globals. */
  class BlueSleep {
    var lpm: bool
    var proto: bool
    var asleep: bool
    var rxTimer: bool
    var txIdle: bool
    var wake: bool
    var port: bool
    var uartOn: bool
    var openCount: int

    ghost function View(): State
      reads this
    {
      State(lpm, proto, asleep, rxTimer, txIdle, wake, port, uartOn, openCount)
    }

    constructor ()
      ensures View() == INITIAL && Inv(View())
    {
      lpm, proto, asleep, rxTimer, txIdle, wake, port, uartOn, openCount :=
        false, false, false, false, false, false, false, true, 1;
    }

    /** hsuart_power */
    method SetPower(on: bool)
      modifies this`uartOn
      ensures View() == Power(old(View()), on)
    {
      if port {
        uartOn := on;
      }
    }

    /** bluesleep_sleep_work */
    method DoSleepWork(hostWake: bool, txEmpty: bool)
      requires Inv(View())
      modifies this`asleep, this`rxTimer, this`wake, this`uartOn
      ensures View() == Step(old(View()), SleepWork(hostWake, txEmpty)) && Inv(View())
    {
      StepSafe(View(), SleepWork(hostWake, txEmpty));
      if !lpm {
        return;
      }
      if !wake && !hostWake && !rxTimer && port {
        if asleep {
          return;
        }
        if txEmpty {
          asleep := true;
          SetPower(false);
        }
      } else if asleep {
        asleep := false;
        rxTimer := true;
        SetPower(true);
      } else if !wake && !txIdle {
        wake := true;
        wake := false;
      }
    }

    /** bluesleep_outgoing_data */
    method DoOutgoingData()
      requires Inv(View())
      modifies this`wake, this`asleep, this`txIdle, this`uartOn
      ensures View() == Step(old(View()), OutgoingData) && Inv(View())
    {
      StepSafe(View(), OutgoingData);
      var powerOn := false;
      if !wake {
        wake := true;
        asleep := false;
        txIdle := false;
        powerOn := true;
      }
      if powerOn {
        SetPower(true);
      }
    }

    /** bluesleep_tx_allow_sleep */
    method DoAllowSleep()
      requires Inv(View())
      modifies this`wake, this`txIdle
      ensures View() == Step(old(View()), AllowSleep) && Inv(View())
    {
      StepSafe(View(), AllowSleep);
      wake := false;
      txIdle := true;
    }

    /** bluesleep_rx_timer_expire */
    method DoRxTimerExpire()
      requires Inv(View())
      modifies this`rxTimer
      ensures View() == Step(old(View()), RxTimerExpires) && Inv(View())
    {
      StepSafe(View(), RxTimerExpires);
      rxTimer := false;
    }

    /** bluesleep_start */
    method DoStart(irq: bool)
      modifies this`proto, this`wake, this`openCount
      ensures View() == Start(old(View()), irq)
      ensures old(Safe(View())) ==> Safe(View())
    {
      if proto {
        return;
      }
      openCount := openCount - 1;
      if openCount != 0 {
        openCount := openCount + 1;
        return;
      }
      wake := false;
      wake := true;
      if !irq {
        openCount := openCount + 1;
        return;
      }
      proto := true;
    }

    /** bluesleep_stop */
    method DoStop()
      requires Safe(View())
      modifies this`proto, this`wake, this`openCount, this`asleep, this`uartOn
      ensures View() == Stop(old(View())) && Safe(View())
    {
      if !proto {
        return;
      }
      wake := true;
      proto := false;
      if asleep {
        asleep := false;
        SetPower(true);
      }
      openCount := openCount + 1;
    }

    /** bluesleep_write_proc_lpm */
    method WriteLpm(b: char, device: bool, found: bool, irq: bool)
      requires Inv(View())
      modifies this
      ensures View() == Step(old(View()), Written(b, device, found, irq))
      ensures Inv(View()) <==> Harmless(Written(b, device, found, irq)) || old(lpm)
      ensures Safe(View())
    {
      StepSafe(View(), Written(b, device, found, irq));
      hide *;
      SwitchMode(b, device, found, irq);
    }

    /** Its body. */
    method SwitchMode(b: char, device: bool, found: bool, irq: bool)
      requires Safe(View())
      modifies this
      ensures View() == Step(old(View()), Written(b, device, found, irq))
    {
      hide Safe, Start, Stop;
      if b == '0' {
        DoStop();
        lpm := false;
        port := false;
      } else if !lpm {
        lpm := true;
        if device {
          port := found;
        }
        DoStart(irq);
      }
    }
  }
}
