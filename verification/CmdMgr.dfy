/** The firmware command manager: request/confirm matching, time-outs and the crashed state. Each event
    is one locked section, or one way in which a waiting thread's wait can end. */
module CmdMgr {
  import opened Common

  const MAX_QUEUED: nat := 8   // RWNX_CMD_MAX_QUEUED

  /** cmd->result */
  datatype Result = Interrupted | Done | Expired

  /** The thread that issued the command. */
  datatype Waiter =
    | Waiting                  // in wait_for_completion
    | Late                     // its wait has timed out, it has not taken the lock yet
    | Returned(ok: bool)       // back from cmd_mgr_queue, with 0 or -ETIMEDOUT

  /** The last four fields are history: the position in the order of acceptance, whether a confirmation
      was matched to the command, whether a drain took it, and how often it was taken off the list. */
  datatype Cmd = Cmd(
    reqid: u16, tkn: u32, waitCfm: bool, waitAck: bool, waitPush: bool, done: bool, completed: bool,
    result: Result, waiter: Waiter, serial: nat, confirmed: bool, drained: bool, removals: nat)

  /** `deferred` records that the deferred-push branch was taken, `corrupt` that an entry was unlinked
      that was not on the list. */
  datatype Mgr = Mgr(
    crashed: bool, list: seq<nat>, queueSz: u32, nextTkn: u32, cmds: map<nat, Cmd>,
    issued: nat, deferred: bool, corrupt: bool)

  datatype Event =
    | Submit(c: nat, reqid: u16)                // cmd_mgr_queue up to the unlock
    | Confirm(id: u16, refused: set<nat>)       // cmd_mgr_msgind; the callback refuses some commands
    | WakeUp(c: nat)                            // the wait ends by completion
    | GiveUp(c: nat)                            // the wait ends by time-out
    | Crash(c: nat)                             // the late waiter's locked section
    | Drain                                     // cmd_mgr_drain

  datatype Verdict = Accepted | Crashed | TooMany

  /** What cmd_mgr_queue decides under the lock. */
  function Decide(m: Mgr): Verdict {
    if m.crashed then Crashed
    else if m.list != [] && m.queueSz == MAX_QUEUED then TooMany
    else Accepted
  }

  function Position(list: seq<nat>, c: nat, i: nat): (k: int)
    requires i <= |list|
    ensures k < 0 ==> k == -1 && c !in list[i..]
    ensures k >= 0 ==> i <= k < |list| && list[k] == c
    decreases |list| - i
  {
    if i == |list| then -1 else if list[i] == c then i else Position(list, c, i + 1)
  }

  /** list_del: the entry goes, wherever it is. */
  function Remove(list: seq<nat>, c: nat): seq<nat> {
    var k := Position(list, c, 0);
    if k < 0 then list else list[..k] + list[k + 1..]
  }

  /** cmd_complete */
  function Complete(m: Mgr, c: nat): Mgr
    requires c in m.cmds
  {
    var cmd := m.cmds[c].(done := true, removals := m.cmds[c].removals + 1);
    var cmd' := if !cmd.waitAck && !cmd.waitCfm then cmd.(result := Done, completed := true) else cmd;
    m.(list := Remove(m.list, c), queueSz := Wrap32(m.queueSz - 1), cmds := m.cmds[c := cmd'],
       corrupt := m.corrupt || c !in m.list)
  }

  predicate WaitsFor(m: Mgr, id: u16, refused: set<nat>, c: nat) {
    c in m.cmds && m.cmds[c].reqid == id && m.cmds[c].waitCfm && c !in refused
  }

  /** The first command from position `i` on that takes the confirmation, or -1. */
  function Match(m: Mgr, id: u16, refused: set<nat>, i: nat): (k: int)
    requires i <= |m.list|
    ensures k < 0 ==> k == -1 && forall j :: i <= j < |m.list| ==> !WaitsFor(m, id, refused, m.list[j])
    ensures k >= 0 ==> i <= k < |m.list| && WaitsFor(m, id, refused, m.list[k])
                       && forall j :: i <= j < k ==> !WaitsFor(m, id, refused, m.list[j])
    decreases |m.list| - i
  {
    if i == |m.list| then -1
    else if WaitsFor(m, id, refused, m.list[i]) then i
    else Match(m, id, refused, i + 1)
  }

  predicate Enabled(m: Mgr, e: Event) {
    match e
    case Submit(c, _) => c !in m.cmds
    case WakeUp(c) => c in m.cmds && m.cmds[c].waiter.Waiting? && m.cmds[c].completed
    case GiveUp(c) => c in m.cmds && m.cmds[c].waiter.Waiting? && !m.cmds[c].completed
    case Crash(c) => c in m.cmds && m.cmds[c].waiter.Late?
    case _ => true
  }

  /** What a drain does to a command on the list. */
  function Released(cmd: Cmd): Cmd {
    cmd.(completed := true, drained := true, removals := cmd.removals + 1)
  }

  function Drained(m: Mgr): map<nat, Cmd> {
    map c | c in m.cmds :: if c in m.list then Released(m.cmds[c]) else m.cmds[c]
  }

  function Step(m: Mgr, e: Event): Mgr
    requires Enabled(m, e)
  {
    match e
    case Submit(c, reqid) =>
      if !Decide(m).Accepted? then m
      else
        var defer := m.list != [] && var last := m.list[|m.list| - 1];
                                     last in m.cmds && (m.cmds[last].waitAck || m.cmds[last].waitPush);
        m.(list := m.list + [c], queueSz := Wrap32(m.queueSz + 1), nextTkn := Wrap32(m.nextTkn + 1),
           cmds := m.cmds[c := Cmd(reqid, m.nextTkn, true, false, defer, false, false, Interrupted, Waiting,
                                   m.issued, false, false, 0)],
           issued := m.issued + 1, deferred := m.deferred || defer)
    case Confirm(id, refused) =>
      var k := Match(m, id, refused, 0);
      if k < 0 then m
      else
        var c := m.list[k];
        var m' := m.(cmds := m.cmds[c := m.cmds[c].(waitCfm := false, confirmed := true)]);
        if !m.cmds[c].waitAck then Complete(m', c) else m'
    case WakeUp(c) => m.(cmds := m.cmds[c := m.cmds[c].(waiter := Returned(true))])
    case GiveUp(c) => m.(cmds := m.cmds[c := m.cmds[c].(waiter := Late)])
    case Crash(c) =>
      var cmd := m.cmds[c].(waiter := Returned(false));
      var m' := m.(crashed := true, cmds := m.cmds[c := cmd]);
      if cmd.done then m' else Complete(m'.(cmds := m.cmds[c := cmd.(result := Expired)]), c)
    case Drain => m.(list := [], queueSz := Wrap32(m.queueSz - |m.list|), cmds := Drained(m))
  }

  // ------------------------------------------------------------------
  // What every run keeps

  /** A command on the list has been taken off never, is confirmed by nobody and completed by nobody. */
  predicate Pending(cmd: Cmd) {
    && cmd.waitCfm && !cmd.waitAck && !cmd.waitPush && !cmd.done && !cmd.completed
    && cmd.result.Interrupted? && !cmd.confirmed && !cmd.drained && cmd.removals == 0 && !cmd.waiter.Returned?
  }

  /** A command off the list was taken off once. Its result is 0 only if it was confirmed. Its waiter is
      released, and gets 0 back, because it was confirmed or because it was drained; a waiter that has
      timed out finds the command marked done. */
  predicate Finished(cmd: Cmd) {
    && cmd.removals == 1
    && (cmd.result.Done? <==> cmd.confirmed)
    && (cmd.completed <==> cmd.confirmed || cmd.drained) && !(cmd.confirmed && cmd.drained)
    && (cmd.waiter.Late? ==> cmd.done)
    && (cmd.waiter.Waiting? ==> cmd.completed)
    && (cmd.waiter == Returned(true) ==> cmd.completed)
  }

  predicate Fits(m: Mgr, c: nat)
    requires c in m.cmds
  {
    var cmd := m.cmds[c];
    cmd.serial < m.issued && cmd.tkn == Wrap32(cmd.serial) && (if c in m.list then Pending(cmd) else Finished(cmd))
  }

  /** The list holds known commands in order of acceptance, hence none twice. */
  predicate InOrder(m: Mgr) {
    && (forall i :: 0 <= i < |m.list| ==> m.list[i] in m.cmds)
    && (forall i, j :: 0 <= i < j < |m.list| ==> m.cmds[m.list[i]].serial < m.cmds[m.list[j]].serial)
  }

  predicate Inv(m: Mgr) {
    && !m.deferred && !m.corrupt
    && m.queueSz == |m.list| <= MAX_QUEUED && m.nextTkn == Wrap32(m.issued)
    && InOrder(m) && forall c :: c in m.cmds ==> Fits(m, c)
  }

  /** A drain is safe when no command on the list has a waiter that has already timed out. */
  predicate SafeAt(m: Mgr, e: Event) {
    e.Drain? ==> forall c :: c in m.list && c in m.cmds ==> !m.cmds[c].waiter.Late?
  }

  /** Taking a command off the list: the others stay, in the same order. */
  lemma {:induction false} RemoveOne(m: Mgr, c: nat)
    requires InOrder(m) && c in m.list
    ensures var rest := Remove(m.list, c);
            && |rest| == |m.list| - 1
            && (forall d :: d in rest <==> d in m.list && d != c)
            && InOrder(m.(list := rest))
  {
    var k := Position(m.list, c, 0);
    assert m.list[0..] == m.list;
    hide Position;
    CutOut(m.list, k);
  }

  lemma CutOut(list: seq<nat>, k: nat)
    requires k < |list| && forall i, j :: 0 <= i < j < |list| ==> list[i] != list[j]
    ensures var rest := list[..k] + list[k + 1..];
            && (forall i :: 0 <= i < |rest| ==> rest[i] == list[if i < k then i else i + 1])
            && (forall d :: d in rest <==> d in list && d != list[k])
  {
  }

  lemma AcceptedInOrder(m: Mgr, m': Mgr, c: nat)
    requires InOrder(m) && m'.list == m.list + [c] && forall d :: d in m.cmds ==> m.cmds[d].serial < m.issued
    requires c in m'.cmds && m'.cmds[c].serial == m.issued
    requires forall d :: d in m.cmds ==> d != c && d in m'.cmds && m'.cmds[d] == m.cmds[d]
    ensures InOrder(m')
  {
  }

  lemma FitsKept(m: Mgr, m': Mgr, d: nat)
    requires d in m.cmds && d in m'.cmds && m'.cmds[d] == m.cmds[d] && m.issued <= m'.issued
    requires (d in m'.list <==> d in m.list) && Fits(m, d)
    ensures Fits(m', d)
  {
  }

  lemma WrapNext(x: int)
    ensures Wrap32(Wrap32(x) + 1) == Wrap32(x + 1)
  {
  }

  lemma SubmitInv(m: Mgr, c: nat, reqid: u16)
    requires Inv(m) && Enabled(m, Submit(c, reqid))
    ensures Inv(Step(m, Submit(c, reqid)))
  {
    var m' := Step(m, Submit(c, reqid));
    if Decide(m).Accepted? {
      if m.list != [] {
        assert Fits(m, m.list[|m.list| - 1]);
      }
      WrapNext(m.issued);
      assert m'.queueSz == |m'.list| <= MAX_QUEUED;
      hide Wrap32;
      AcceptedInOrder(m, m', c);
      hide InOrder;
      assert Fits(m', c);
      hide Pending, Finished;
      forall d | d in m'.cmds && d != c ensures Fits(m', d) {
        FitsKept(m, m', d);
      }
      hide Fits;
    }
  }

  lemma DrainInv(m: Mgr)
    requires Inv(m) && SafeAt(m, Drain)
    ensures Inv(Step(m, Drain))
  {
  }

  /** Completing a listed command whose confirmation state has just been updated. */
  lemma CompleteInv(m: Mgr, c: nat, cmd: Cmd, crashed: bool)
    requires Inv(m) && c in m.list && c in m.cmds
    requires cmd.reqid == m.cmds[c].reqid && cmd.tkn == m.cmds[c].tkn && cmd.serial == m.cmds[c].serial
    requires !cmd.waitAck && cmd.removals == 0 && !cmd.done && !cmd.completed && !cmd.drained && cmd.confirmed == !cmd.waitCfm
    requires !cmd.result.Done? && (cmd.waitCfm ==> cmd.waiter == Returned(false)) && cmd.waiter != Returned(true)
    ensures Inv(Complete(m.(crashed := crashed, cmds := m.cmds[c := cmd]), c))
  {
    hide Remove;
    var m' := Complete(m.(crashed := crashed, cmds := m.cmds[c := cmd]), c);
    RemoveOne(m, c);
    assert Fits(m, c);
    assert Fits(m', c);
    forall d | d in m'.cmds && d != c ensures Fits(m', d) {
      assert Fits(m, d);
    }
  }

  lemma StepInv(m: Mgr, e: Event)
    requires Inv(m) && Enabled(m, e) && SafeAt(m, e)
    ensures Inv(Step(m, e))
  {
    var m' := Step(m, e);
    match e {
      case Submit(c, reqid) => SubmitInv(m, c, reqid);
      case Confirm(id, refused) =>
        var k := Match(m, id, refused, 0);
        if k >= 0 {
          var c := m.list[k];
          assert Fits(m, c);
          CompleteInv(m, c, m.cmds[c].(waitCfm := false, confirmed := true), m.crashed);
        }
      case Crash(c) =>
        assert Fits(m, c);
        if !m.cmds[c].done {
          CompleteInv(m, c, m.cmds[c].(waiter := Returned(false), result := Expired), true);
        } else {
          assert forall d :: d in m'.cmds ==> Fits(m, d);
        }
      case Drain => DrainInv(m);
      case WakeUp(c) => assert forall d :: d in m'.cmds ==> Fits(m, d);
      case GiveUp(c) => assert forall d :: d in m'.cmds ==> Fits(m, d);
    }
  }

  function Run(m: Mgr, es: seq<Event>): Mgr {
    if es == [] then m
    else
      var t := Run(m, es[..|es| - 1]);
      if Enabled(t, es[|es| - 1]) then Step(t, es[|es| - 1]) else t
  }

  /** Every drain of the run is safe when it happens. */
  predicate Safe(m: Mgr, es: seq<Event>) {
    es == [] || (Safe(m, es[..|es| - 1]) && SafeAt(Run(m, es[..|es| - 1]), es[|es| - 1]))
  }

  const EMPTY: Mgr := Mgr(false, [], 0, 0, map[], 0, false, false)

  /** In every run without fatal signals and with safe drains: the counter is the list length and at
      most 8, tokens follow the order of acceptance, no push is ever deferred, no command leaves the
      list twice, and a result of 0 means confirmed. */
  lemma {:induction false} RunInv(es: seq<Event>)
    requires Safe(EMPTY, es)
    ensures Inv(Run(EMPTY, es))
  {
    hide Step, Inv, SafeAt;
    if es == [] {
      EmptyInv();
    } else {
      RunInv(es[..|es| - 1]);
      var t := Run(EMPTY, es[..|es| - 1]);
      if Enabled(t, es[|es| - 1]) {
        StepInv(t, es[|es| - 1]);
      }
    }
  }

  lemma EmptyInv()
    ensures Inv(EMPTY)
  {
  }

  /** The drain condition is exact: if a command on the list has a waiter past its time-out, draining
      and then letting that waiter run unlinks the command twice and leaves the counter wrong. */
  lemma UnsafeDrainCorrupts(m: Mgr, c: nat)
    requires Inv(m) && c in m.list && c in m.cmds && m.cmds[c].waiter.Late?
    ensures Enabled(Step(m, Drain), Crash(c))
    ensures var m' := Step(Step(m, Drain), Crash(c));
            m'.corrupt && m'.cmds[c].removals == 2 && m'.list == [] && m'.queueSz == 0xffff_ffff
  {
  }

  /** And it happens: a command is queued, its wait times out, a drain comes before the waiter's lock. */
  lemma {:induction false} CorruptionIsReachable(c: nat, reqid: u16)
    ensures var m := Run(EMPTY, [Submit(c, reqid), GiveUp(c), Drain, Crash(c)]);
            m.corrupt && m.list == [] && m.queueSz == 0xffff_ffff
  {
    RunSnoc(EMPTY, [], Submit(c, reqid));
    RunSnoc(EMPTY, [] + [Submit(c, reqid)], GiveUp(c));
    RunSnoc(EMPTY, [] + [Submit(c, reqid)] + [GiveUp(c)], Drain);
    RunSnoc(EMPTY, [] + [Submit(c, reqid)] + [GiveUp(c)] + [Drain], Crash(c));
    assert [] + [Submit(c, reqid)] + [GiveUp(c)] + [Drain] + [Crash(c)] == [Submit(c, reqid), GiveUp(c), Drain, Crash(c)];
  }

  lemma RunSnoc(m: Mgr, es: seq<Event>, e: Event)
    ensures Run(m, es + [e]) == if Enabled(Run(m, es), e) then Step(Run(m, es), e) else Run(m, es)
  {
    assert (es + [e])[..|es + [e]| - 1] == es;
  }

  /** A confirmation completes the oldest command waiting for its id that the callback accepts, with
      result 0, and touches no other command; with no such command it changes nothing. */
  lemma ConfirmsOldest(m: Mgr, id: u16, refused: set<nat>, c: nat)
    requires Inv(m) && c in m.list && WaitsFor(m, id, refused, c)
    requires forall d :: d in m.list && WaitsFor(m, id, refused, d) ==> m.cmds[c].serial <= m.cmds[d].serial
    ensures var m' := Step(m, Confirm(id, refused));
            && m'.list == Remove(m.list, c)
            && c in m'.cmds && m'.cmds[c].result.Done? && m'.cmds[c].completed && m'.cmds[c].confirmed
            && m'.cmds - {c} == m.cmds - {c}
  {
    var k := Match(m, id, refused, 0);
    var j :| 0 <= j < |m.list| && m.list[j] == c;
    assert Fits(m, c);
    assert k >= 0 ==> m.list[k] in m.list;
    assert k == j;
  }

  lemma NobodyToConfirm(m: Mgr, id: u16, refused: set<nat>)
    requires forall d :: d in m.list ==> !WaitsFor(m, id, refused, d)
    ensures Step(m, Confirm(id, refused)) == m
  {
  }

  /** The manager takes a command exactly while it is not crashed and fewer than eight are listed. */
  lemma AcceptsUpToEight(m: Mgr)
    requires Inv(m)
    ensures Decide(m).Accepted? <==> !m.crashed && |m.list| < 8
    ensures Decide(m).Crashed? <==> m.crashed
  {
  }

  /** A command is waiting for the id it was submitted with: the next confirmation of that id completes it
      with result 0 and releases its waiter with success, if no other command waits for the same. */
  lemma SubmittedIsConfirmed(m: Mgr, c: nat, reqid: u16)
    requires Inv(m) && Enabled(m, Submit(c, reqid)) && Decide(m).Accepted?
    requires forall d :: d in m.list ==> !WaitsFor(m, reqid, {}, d)
    ensures var m' := Step(Step(m, Submit(c, reqid)), Confirm(reqid, {}));
            && c in m'.cmds && m'.cmds[c].result.Done? && m'.cmds[c].confirmed && m'.cmds - {c} == m.cmds - {c}
            && Enabled(m', WakeUp(c)) && Step(m', WakeUp(c)).cmds[c].waiter == Returned(true)
  {
    var m1 := Step(m, Submit(c, reqid));
    StepInv(m, Submit(c, reqid));
    assert m1.list[|m.list|] == c;
    assert m1.cmds[c].waiter.Waiting?;
    forall d | d in m1.list && d != c ensures !WaitsFor(m1, reqid, {}, d) {
      assert d in m.list;
    }
    assert m1.cmds - {c} == m.cmds - {c};
    assert m1.cmds[c].reqid == reqid;
    hide Inv, Fits;
    ConfirmsOldest(m1, reqid, {}, c);
    WaiterKept(m1, reqid, c);
  }

  /** A confirmation does not touch any waiter. */
  lemma WaiterKept(m: Mgr, id: u16, c: nat)
    requires c in m.cmds
    ensures var m' := Step(m, Confirm(id, {})); c in m'.cmds && m'.cmds[c].waiter == m.cmds[c].waiter
  {
  }

  lemma StepReqid(m: Mgr, e: Event, c: nat)
    requires Enabled(m, e) && c in Step(m, e).cmds
    ensures (c in m.cmds && Step(m, e).cmds[c].reqid == m.cmds[c].reqid) || e == Submit(c, Step(m, e).cmds[c].reqid)
  {
    hide Match, Decide, Wrap32;
  }

  /** Over every run, the id a command waits for is the one it was submitted with. */
  lemma {:induction false} ReqidsAreSubmitted(es: seq<Event>, c: nat)
    requires c in Run(EMPTY, es).cmds
    ensures Submit(c, Run(EMPTY, es).cmds[c].reqid) in es
  {
    hide Step;
    if es != [] {
      var t, e := Run(EMPTY, es[..|es| - 1]), es[|es| - 1];
      if Enabled(t, e) {
        StepReqid(t, e, c);
      }
      if c in t.cmds && Run(EMPTY, es).cmds[c].reqid == t.cmds[c].reqid {
        ReqidsAreSubmitted(es[..|es| - 1], c);
      }
    }
  }

  /** After the first time-out nothing more is accepted: no token is ever issued again. */
  lemma {:induction false} CrashedForGood(m: Mgr, es: seq<Event>)
    requires m.crashed
    ensures Run(m, es).crashed && Run(m, es).issued == m.issued && Run(m, es).nextTkn == m.nextTkn
    ensures Decide(Run(m, es)).Crashed?
  {
    if es != [] {
      CrashedForGood(m, es[..|es| - 1]);
    }
  }

  /** A drained command's waiter is told 0 although nothing was confirmed. */
  lemma DrainedWaiterGetsZero(m: Mgr, c: nat)
    requires Inv(m) && c in m.list && c in m.cmds && m.cmds[c].waiter.Waiting?
    ensures Enabled(Step(m, Drain), WakeUp(c))
    ensures var cmd := Step(Step(m, Drain), WakeUp(c)).cmds[c];
            cmd.waiter == Returned(true) && !cmd.confirmed && cmd.result.Interrupted?
  {
  }

  // ------------------------------------------------------------------
  // The manager as the driver keeps it

  class CommandManager {
    var crashed: bool
    var list: seq<nat>
    var queueSz: u32
    var nextTkn: u32
    var cmds: map<nat, Cmd>
    // history, not part of the driver's structure
    var issued: nat
    var deferred: bool
    var corrupt: bool

    ghost function View(): Mgr
      reads this
    {
      Mgr(crashed, list, queueSz, nextTkn, cmds, issued, deferred, corrupt)
    }

    /** rwnx_cmd_mgr_init */
    constructor ()
      ensures View() == EMPTY
    {
      crashed, list, queueSz, nextTkn, cmds := false, [], 0, 0, map[];
      issued, deferred, corrupt := 0, false, false;
    }

    /** cmd_mgr_queue up to the unlock */
    method Queue(c: nat, reqid: u16) returns (verdict: Verdict)
      requires Inv(View()) && c !in cmds
      modifies this
      ensures View() == Step(old(View()), Submit(c, reqid)) && Inv(View())
      ensures verdict == Decide(old(View())) && !deferred
    {
      hide Inv;
      ghost var m := View();
      StepInv(m, Submit(c, reqid));
      assert !Step(m, Submit(c, reqid)).deferred by { InvFacts(Step(m, Submit(c, reqid))); }
      if crashed {
        return Crashed;
      }
      var deferPush := false;
      if list != [] {
        if queueSz == MAX_QUEUED {
          return TooMany;
        }
        var last := list[|list| - 1];
        if last in cmds && (cmds[last].waitAck || cmds[last].waitPush) {
          deferPush := true;
        }
      }
      cmds := cmds[c := Cmd(reqid, nextTkn, true, false, deferPush, false, false, Interrupted, Waiting,
                            issued, false, false, 0)];
      nextTkn := Wrap32(nextTkn + 1);
      list := list + [c];
      queueSz := Wrap32(queueSz + 1);
      issued, deferred := issued + 1, deferred || deferPush;
      verdict := Accepted;
    }

    /** cmd_complete */
    method CompleteCmd(c: nat)
      requires c in cmds
      modifies this`list, this`queueSz, this`cmds, this`corrupt
      ensures View() == Complete(old(View()), c)
    {
      hide Remove;
      corrupt := corrupt || c !in list;
      list := Remove(list, c);
      queueSz := Wrap32(queueSz - 1);
      var cmd := cmds[c].(done := true, removals := cmds[c].removals + 1);
      if !cmd.waitAck && !cmd.waitCfm {
        cmd := cmd.(result := Done, completed := true);
      }
      cmds := cmds[c := cmd];
    }

    /** cmd_mgr_msgind: scans the list for the first command that takes the message. */
    method MsgInd(id: u16, refused: set<nat>) returns (found: bool)
      requires Inv(View())
      modifies this
      ensures View() == Step(old(View()), Confirm(id, refused)) && Inv(View())
      ensures found <==> exists c :: c in old(list) && WaitsFor(old(View()), id, refused, c)
    {
      hide Inv, Complete;
      ghost var m := View();
      StepInv(m, Confirm(id, refused));
      found := false;
      var i := 0;
      while i < |list|
        invariant 0 <= i <= |list| && View() == m && !found
        invariant Match(m, id, refused, 0) == Match(m, id, refused, i)
        invariant forall j :: 0 <= j < i ==> !WaitsFor(m, id, refused, list[j])
        decreases |list| - i
      {
        var c := list[i];
        if c in cmds && cmds[c].reqid == id && cmds[c].waitCfm && c !in refused {
          found := true;
          cmds := cmds[c := cmds[c].(waitCfm := false, confirmed := true)];
          if !cmds[c].waitAck {
            CompleteCmd(c);
          }
          assert WaitsFor(m, id, refused, c) && c in m.list;
          return;
        }
        i := i + 1;
      }
      forall c | c in list ensures !WaitsFor(m, id, refused, c) {
        var j :| 0 <= j < |list| && list[j] == c;
      }
    }

    /** The locked section of a waiter whose wait has timed out. */
    method TimedOut(c: nat)
      requires Inv(View()) && c in cmds && cmds[c].waiter.Late?
      modifies this
      ensures View() == Step(old(View()), Crash(c)) && Inv(View()) && crashed
    {
      hide Inv, Complete;
      ghost var m := View();
      StepInv(m, Crash(c));
      crashed := true;
      var cmd := cmds[c].(waiter := Returned(false));
      if cmd.done {
        cmds := cmds[c := cmd];
      } else {
        cmds := cmds[c := cmd.(result := Expired)];
        CompleteCmd(c);
      }
    }

    /** cmd_mgr_drain */
    method DrainAll()
      requires Inv(View())
      modifies this
      ensures View() == Step(old(View()), Drain) && list == []
      ensures old(SafeAt(View(), Drain)) ==> Inv(View())
    {
      hide Inv, SafeAt, Drained;
      ghost var m := View();
      if SafeAt(m, Drain) {
        StepInv(m, Drain);
      }
      InvFacts(m);
      ReleaseAll(m);
    }

    /** Its loop. */
    method ReleaseAll(ghost m: Mgr)
      requires m == View() && queueSz == |list|
      requires forall i, j :: 0 <= i < j < |list| ==> list[i] != list[j]
      modifies this`list, this`queueSz, this`cmds
      ensures list == [] && queueSz == 0 && cmds == Drained(m)
    {
      hide Released;
      ghost var i := 0;
      while list != []
        invariant 0 <= i <= |m.list| && list == m.list[i..]
        invariant queueSz == |m.list| - i && cmds.Keys == m.cmds.Keys
        invariant forall d :: d in cmds ==> cmds[d] == if d in m.list[..i] then Released(m.cmds[d]) else m.cmds[d]
        decreases |list|
      {
        var cur := list[0];
        assert cur == m.list[i] && cur !in m.list[..i];
        assert m.list[..i + 1] == m.list[..i] + [cur];
        list := list[1..];
        queueSz := Wrap32(queueSz - 1);
        if cur in cmds {
          cmds := cmds[cur := Released(cmds[cur])];
        }
        i := i + 1;
      }
      assert m.list[..i] == m.list;
    }
  }

  lemma InvFacts(m: Mgr)
    requires Inv(m)
    ensures !m.deferred && !m.corrupt && m.queueSz == |m.list|
    ensures forall i, j :: 0 <= i < j < |m.list| ==> m.list[i] != m.list[j]
  {
  }
}
