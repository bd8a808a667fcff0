/** The prioritised frame queue: up to eight FIFO levels under one length limit, with a cached upper
    bound on the highest level in use. */
module FrameQueue {
  import opened Common

  const LEVELS: nat := 8

  /** Frames are told apart by their address. */
  type Frame = nat
  type Levels = q: seq<seq<Frame>> | |q| == LEVELS witness [[], [], [], [], [], [], [], []]

  function Total(q: seq<seq<Frame>>): nat {
    if q == [] then 0 else Total(q[..|q| - 1]) + |q[|q| - 1]|
  }

  /** A full scan for the lowest, and for the highest, level that is not empty; -1 if there is none. */
  function Lowest(q: seq<seq<Frame>>): (p: int)
    ensures -1 <= p < |q|
    ensures p < 0 ==> forall i :: 0 <= i < |q| ==> q[i] == []
    ensures p >= 0 ==> q[p] != [] && forall i :: 0 <= i < p ==> q[i] == []
  {
    if q == [] then -1
    else
      var p := Lowest(q[..|q| - 1]);
      if p >= 0 then p else if q[|q| - 1] != [] then |q| - 1 else -1
  }

  function Highest(q: seq<seq<Frame>>): (p: int)
    ensures -1 <= p < |q|
    ensures p < 0 ==> forall i :: 0 <= i < |q| ==> q[i] == []
    ensures p >= 0 ==> q[p] != [] && forall i :: p < i < |q| ==> q[i] == []
  {
    if q == [] then -1
    else if q[|q| - 1] != [] then |q| - 1
    else Highest(q[..|q| - 1])
  }

  function Front(s: seq<Frame>): seq<Frame>
    requires s != []
  {
    s[..|s| - 1]
  }

  // ------------------------------------------------------------------
  // What the queue does, on values

  datatype Enqueued = Enqueued(q: Levels, accepted: bool, evicted: Option<Frame>)

  /** Below the limit a frame joins the tail of its level. At the limit it is accepted only in place of
      the newest frame of the lowest level in use, if that level is lower than its own; it then sits on
      that lower level. */
  function Enqueue(q: Levels, qmax: nat, f: Frame, prio: nat): (r: Enqueued)
    requires prio < LEVELS
  {
    var low := Lowest(q);
    if Total(q) < qmax then Enqueued(q[prio := q[prio] + [f]], true, None)
    else if 0 <= low < prio && qmax > 0 then
      Enqueued(q[low := Front(q[low]) + [f]], true, Some(q[low][|q[low]| - 1]))
    else Enqueued(q, false, None)
  }

  /** The oldest frame of the highest level in use. */
  function Dequeue(q: Levels): (Levels, Option<Frame>) {
    var p := Highest(q);
    if p < 0 then (q, None) else (q[p := q[p][1..]], Some(q[p][0]))
  }

  function CountIn(s: seq<Frame>, f: Frame): nat {
    multiset(s)[f]
  }

  /** How often a frame is queued. */
  function Queued(q: seq<seq<Frame>>, f: Frame): nat {
    if q == [] then 0 else Queued(q[..|q| - 1], f) + CountIn(q[|q| - 1], f)
  }

  lemma {:induction false} ReplaceLevel(q: seq<seq<Frame>>, p: nat, s: seq<Frame>, f: Frame)
    requires p < |q|
    ensures Total(q[p := s]) == Total(q) - |q[p]| + |s|
    ensures Queued(q[p := s], f) == Queued(q, f) - CountIn(q[p], f) + CountIn(s, f)
    ensures |q[p]| <= Total(q)
  {
    var init := q[..|q| - 1];
    if p < |init| {
      ReplaceLevel(init, p, s, f);
      assert q[p := s][..|q| - 1] == init[p := s];
    } else {
      assert q[p := s][..|q| - 1] == init;
    }
  }

  lemma {:induction false} TotalZero(q: seq<seq<Frame>>)
    ensures Total(q) == 0 <==> forall i :: 0 <= i < |q| ==> q[i] == []
  {
    if q != [] {
      TotalZero(q[..|q| - 1]);
      assert forall i :: 0 <= i < |q| - 1 ==> q[..|q| - 1][i] == q[i];
    }
  }

  function Is(x: Option<Frame>, f: Frame): nat {
    if x == Some(f) then 1 else 0
  }

  /** Nothing is lost or duplicated, the limit holds, and a full queue keeps its length. */
  lemma EnqueueConserves(q: Levels, qmax: nat, f: Frame, prio: nat, x: Frame)
    requires prio < LEVELS && Total(q) <= qmax
    ensures var r := Enqueue(q, qmax, f, prio);
            && Queued(q, x) + (if r.accepted then Is(Some(f), x) else 0) == Queued(r.q, x) + Is(r.evicted, x)
            && Total(r.q) <= qmax
            && (Total(q) == qmax ==> Total(r.q) == qmax)
            && (r.evicted.Some? ==> r.accepted && Total(q) == qmax)
  {
    hide Total, Queued, Lowest;
    var low := Lowest(q);
    if Total(q) < qmax {
      ReplaceLevel(q, prio, q[prio] + [f], x);
    } else if low >= 0 {
      var s := q[low];
      assert s == Front(s) + [s[|s| - 1]];
      ReplaceLevel(q, low, Front(s) + [f], x);
    }
  }

  /** Dequeuing takes exactly one frame, and none only from an empty queue. */
  lemma DequeueConserves(q: Levels, x: Frame)
    ensures var (q', out) := Dequeue(q);
            && Queued(q, x) == Queued(q', x) + Is(out, x)
            && Total(q') == Total(q) - (if out.Some? then 1 else 0)
            && (out.None? <==> Total(q) == 0)
  {
    TotalZero(q);
    var p := Highest(q);
    if p >= 0 {
      var s := q[p];
      assert s == [s[0]] + s[1..];
      ReplaceLevel(q, p, s[1..], x);
    }
  }

  /** Exactly when a frame is accepted, and exactly when it then joins its own level: a frame that finds
      the queue full joins the level of the frame it replaces, which is lower. */
  lemma EvictionDemotes(q: Levels, qmax: nat, f: Frame, prio: nat)
    requires prio < LEVELS && Total(q) <= qmax
    ensures var r, low := Enqueue(q, qmax, f, prio), Lowest(q);
            && (r.accepted <==> Total(q) < qmax || 0 <= low < prio)
            && (r.accepted ==> (r.q[prio] == q[prio] + [f] <==> Total(q) < qmax))
            && (Total(q) < qmax ==> forall p :: 0 <= p < LEVELS && p != prio ==> r.q[p] == q[p])
            && (!r.accepted ==> r.q == q && r.evicted.None?)
            && (r.accepted && Total(q) == qmax ==>
                  && r.evicted == Some(q[low][|q[low]| - 1])
                  && r.q[low] == Front(q[low]) + [f]
                  && forall p :: 0 <= p < LEVELS && p != low ==> r.q[p] == q[p])
  {
    TotalZero(q);
    assert |q[prio] + [f]| == |q[prio]| + 1;
  }

  // ------------------------------------------------------------------
  // Whole runs

  datatype Operation = Put(f: Frame, prio: nat) | Take | Clear

  /** How often frame `x` was accepted, taken out, evicted and flushed. */
  datatype Books = Books(q: Levels, accepted: nat, taken: nat, evicted: nat, flushed: nat)

  function Empty(): (q: Levels)
    ensures forall i :: 0 <= i < LEVELS ==> q[i] == []
  {
    [[], [], [], [], [], [], [], []]
  }

  function Apply(b: Books, qmax: nat, op: Operation, x: Frame): Books {
    match op
    case Put(f, prio) =>
      if prio >= LEVELS then b
      else
        var r := Enqueue(b.q, qmax, f, prio);
        b.(q := r.q, accepted := b.accepted + (if r.accepted then Is(Some(f), x) else 0),
           evicted := b.evicted + Is(r.evicted, x))
    case Take =>
      var (q, f) := Dequeue(b.q);
      b.(q := q, taken := b.taken + Is(f, x))
    case Clear => b.(q := Empty(), flushed := b.flushed + Queued(b.q, x))
  }

  function Run(qmax: nat, ops: seq<Operation>, x: Frame): Books {
    if ops == [] then Books(Empty(), 0, 0, 0, 0)
    else Apply(Run(qmax, ops[..|ops| - 1], x), qmax, ops[|ops| - 1], x)
  }

  lemma NothingQueued(x: Frame)
    ensures Total(Empty()) == 0 && Queued(Empty(), x) == 0
  {
    TotalZero(Empty());
    NoneQueued(Empty(), x);
  }

  lemma {:induction false} NoneQueued(q: seq<seq<Frame>>, x: Frame)
    requires forall i :: 0 <= i < |q| ==> q[i] == []
    ensures Queued(q, x) == 0
  {
    if q != [] {
      NoneQueued(q[..|q| - 1], x);
    }
  }

  /** In every run of operations, as often as a frame was accepted it has been taken out, evicted or
      flushed, or is still queued; and the limit always holds. */
  lemma {:induction false} RunConserves(qmax: nat, ops: seq<Operation>, x: Frame)
    ensures var b := Run(qmax, ops, x);
            b.accepted == b.taken + b.evicted + b.flushed + Queued(b.q, x) && Total(b.q) <= qmax
  {
    hide Total, Queued, Enqueue, Dequeue;
    NothingQueued(x);
    if ops != [] {
      RunConserves(qmax, ops[..|ops| - 1], x);
      var b, op := Run(qmax, ops[..|ops| - 1], x), ops[|ops| - 1];
      DequeueConserves(b.q, x);
      if op.Put? && op.prio < LEVELS {
        EnqueueConserves(b.q, qmax, op.f, op.prio, x);
      }
    }
  }

  /** What joined level `p` and has not been evicted or flushed from it, and what was taken from it. */
  datatype Log = Log(joined: seq<Frame>, taken: seq<Frame>)

  function Track(l: Log, q: Levels, qmax: nat, op: Operation, p: nat): Log {
    match op
    case Put(f, prio) =>
      if prio >= LEVELS then l
      else if Total(q) < qmax then (if p == prio then l.(joined := l.joined + [f]) else l)
      else if Enqueue(q, qmax, f, prio).accepted && p == Lowest(q) && l.joined != [] then
        l.(joined := Front(l.joined) + [f])
      else l
    case Take => if p == Highest(q) && Dequeue(q).1.Some? then l.(taken := l.taken + [Dequeue(q).1.value]) else l
    case Clear => l.(joined := l.taken)
  }

  function RunLog(qmax: nat, ops: seq<Operation>, p: nat): Log {
    if ops == [] then Log([], [])
    else Track(RunLog(qmax, ops[..|ops| - 1], p), Run(qmax, ops[..|ops| - 1], 0).q, qmax, ops[|ops| - 1], p)
  }

  lemma TrackStep(l: Log, b: Books, qmax: nat, op: Operation, p: nat)
    requires p < LEVELS && l.taken + b.q[p] == l.joined
    ensures var l', q' := Track(l, b.q, qmax, op, p), Apply(b, qmax, op, 0).q; l'.taken + q'[p] == l'.joined
  {
    hide Total, Lowest, Highest, Queued;
    var q := b.q;
    var l', q' := Track(l, q, qmax, op, p), Apply(b, qmax, op, 0).q;
    if op.Take? && p == Highest(q) {
      assert q[p] == [q[p][0]] + q[p][1..];
      assert l.taken + q[p] == l.taken + [q[p][0]] + q[p][1..];
    } else if op.Put? && op.prio < LEVELS && q' != q {
      if Total(q) < qmax {
        assert p == op.prio ==> l.taken + (q[p] + [op.f]) == l.taken + q[p] + [op.f];
      } else if p == Lowest(q) {
        assert Front(l.joined) == l.taken + Front(q[p]);
        assert l.taken + (Front(q[p]) + [op.f]) == l.taken + Front(q[p]) + [op.f];
      }
    }
  }

  /** First in, first out on every level, over every run: what has been taken from a level, followed by what
      is still queued there, is what joined it, in order. */
  lemma {:induction false} LevelsAreFifo(qmax: nat, ops: seq<Operation>, p: nat)
    requires p < LEVELS
    ensures var l := RunLog(qmax, ops, p); l.taken + Run(qmax, ops, 0).q[p] == l.joined
  {
    hide Track, Apply;
    if ops != [] {
      LevelsAreFifo(qmax, ops[..|ops| - 1], p);
      TrackStep(RunLog(qmax, ops[..|ops| - 1], p), Run(qmax, ops[..|ops| - 1], 0), qmax, ops[|ops| - 1], p);
    }
  }

  /** A taken frame has no frame of a higher level waiting. */
  lemma TakenFromHighest(q: Levels)
    ensures var (q', f) := Dequeue(q);
            f.Some? ==> exists p :: 0 <= p < LEVELS && q[p] != [] && q[p][0] == f.value && q'[p] == q[p][1..]
                                    && forall i :: p < i < LEVELS ==> q[i] == []
  {
    var p := Highest(q);
    if p >= 0 {
      assert q[p] != [] && q[p][0] == Dequeue(q).1.value;
    }
  }

  /** One frame on each level of a pair. */
  function Pair(a: Frame, p: nat, b: Frame, r: nat): Levels
    requires p < r < LEVELS
  {
    Empty()[p := [a]][r := [b]]
  }

  lemma PairFacts(a: Frame, p: nat, b: Frame, r: nat)
    requires p < r < LEVELS
    ensures Total(Pair(a, p, b, r)) == 2 && Lowest(Pair(a, p, b, r)) == p && Highest(Pair(a, p, b, r)) == r
    ensures Total(Empty()[p := [a]]) == 1
  {
    hide Total, Empty;
    NothingQueued(a);
    ReplaceLevel(Empty(), p, [a], a);
    ReplaceLevel(Empty()[p := [a]], r, [b], a);
    var q := Pair(a, p, b, r);
    assert q[p] == [a] && q[r] == [b] && forall i :: 0 <= i < LEVELS && i != p && i != r ==> q[i] == Empty()[i];
  }

  /** The demotion turns priorities round: with room for two, after a frame on each of two levels comes
      one of a higher priority than both. It is accepted and the lower of the two is evicted, but the
      other one leaves first. */
  lemma {:induction false} EvictionInvertsPriority(a: Frame, p: nat, b: Frame, r: nat, f: Frame, prio: nat, x: Frame)
    requires p < r < prio < LEVELS
    ensures var q := Run(2, [Put(a, p), Put(b, r), Put(f, prio)], x).q;
            && q == Pair(f, p, b, r)
            && Dequeue(q) == (Empty()[p := [f]], Some(b))
  {
    ThreeSteps(a, p, b, r, f, prio);
    assert Run(2, [], x).q == Empty();
    hide Enqueue, Dequeue, Run, Pair, Empty, Queued, Is;
    RunSnoc(2, [], Put(a, p), x);
    RunSnoc(2, [] + [Put(a, p)], Put(b, r), x);
    RunSnoc(2, [] + [Put(a, p)] + [Put(b, r)], Put(f, prio), x);
    assert [] + [Put(a, p)] + [Put(b, r)] + [Put(f, prio)] == [Put(a, p), Put(b, r), Put(f, prio)];
  }

  lemma ThreeSteps(a: Frame, p: nat, b: Frame, r: nat, f: Frame, prio: nat)
    requires p < r < prio < LEVELS
    ensures Enqueue(Empty(), 2, a, p).q == Empty()[p := [a]]
    ensures Enqueue(Empty()[p := [a]], 2, b, r).q == Pair(a, p, b, r)
    ensures Enqueue(Pair(a, p, b, r), 2, f, prio).q == Pair(f, p, b, r)
    ensures Dequeue(Pair(f, p, b, r)) == (Empty()[p := [f]], Some(b))
  {
    PairFacts(a, p, b, r);
    PairFacts(f, p, b, r);
    NothingQueued(a);
    hide Total, Lowest, Highest, Empty;
    assert [] + [a] == [a] && [] + [b] == [b] && [] + [f] == [f];
    assert Pair(a, p, b, r)[p := [f]] == Pair(f, p, b, r);
    assert [b][1..] == [] == Empty()[r];
    assert Pair(f, p, b, r)[r := []] == Empty()[p := [f]];
  }

  lemma RunSnoc(qmax: nat, ops: seq<Operation>, op: Operation, x: Frame)
    ensures Run(qmax, ops + [op], x) == Apply(Run(qmax, ops, x), qmax, op, x)
  {
    assert (ops + [op])[..|ops + [op]| - 1] == ops;
  }

  // ------------------------------------------------------------------
  // The queue as the driver keeps it

  class Queue {
    const numPrio: nat
    const qmax: u16
    var hiPrio: nat
    var qcnt: u16
    const queuelist: array<seq<Frame>>

    ghost function View(): Levels
      requires queuelist.Length == LEVELS
      reads queuelist
    {
      queuelist[..]
    }

    /** The two redundant fields agree with the levels: `qcnt` is their total length, and nothing is
        queued above `hiPrio`. */
    ghost predicate Valid()
      reads this, queuelist
    {
      && 1 <= numPrio <= LEVELS == queuelist.Length
      && hiPrio < numPrio
      && qcnt == Total(View()) <= qmax
      && forall p :: hiPrio < p < LEVELS ==> queuelist[p] == []
    }

    /** aicwf_frame_queue_init */
    constructor (numPrio: nat, maxLen: u16)
      requires 1 <= numPrio <= LEVELS
      ensures Valid() && fresh(queuelist) && this.numPrio == numPrio && qmax == maxLen && View() == Empty()
    {
      this.numPrio, qmax := numPrio, maxLen;
      hiPrio, qcnt := 0, 0;
      queuelist := new seq<Frame>[LEVELS](_ => []);
      new;
      TotalZero(queuelist[..]);
    }

    /** aicwf_frame_queue_penq: fails only if the level itself is at the limit. */
    method Penq(prio: nat, f: Frame) returns (ok: bool)
      requires Valid() && prio < numPrio && qcnt < qmax
      modifies this`hiPrio, this`qcnt, queuelist
      ensures Valid() && ok
      ensures View() == old(View())[prio := old(View())[prio] + [f]]
    {
      ReplaceLevel(queuelist[..], prio, queuelist[prio] + [f], f);
      if |queuelist[prio]| >= qmax {
        return false;
      }
      queuelist[prio] := queuelist[prio] + [f];
      assert queuelist[..] == old(View())[prio := old(View())[prio] + [f]];
      qcnt := qcnt + 1;
      if hiPrio < prio {
        hiPrio := prio;
      }
      ok := true;
    }

    /** aicwf_frame_queue_peek_tail: the level the scan stops at, and its newest frame. */
    method PeekTail() returns (prio: int, f: Option<Frame>)
      requires Valid()
      ensures prio == Lowest(View())
      ensures f == if prio < 0 then None else Some(View()[prio][|View()[prio]| - 1])
    {
      TotalZero(queuelist[..]);
      if qcnt == 0 {
        return -1, None;
      }
      prio := 0;
      while prio < hiPrio
        invariant 0 <= prio <= hiPrio
        invariant forall i :: 0 <= i < prio ==> queuelist[i] == []
      {
        if queuelist[prio] != [] {
          break;
        }
        prio := prio + 1;
      }
      assert queuelist[prio] != [] by {
        var low := Lowest(queuelist[..]);
        assert queuelist[..][low] == queuelist[low];
      }
      assert prio == Lowest(queuelist[..]);
      f := Some(queuelist[prio][|queuelist[prio]| - 1]);
    }

    /** aicwf_is_framequeue_empty */
    method IsEmpty() returns (empty: bool)
      requires Valid()
      ensures empty <==> qcnt == 0
      ensures empty <==> Total(View()) == 0
    {
      var len, prio := 0, 0;
      while prio <= hiPrio
        invariant 0 <= prio <= hiPrio + 1
        invariant len == Total(queuelist[..prio])
      {
        assert queuelist[..prio + 1][..prio] == queuelist[..prio];
        len := len + |queuelist[prio]|;
        prio := prio + 1;
      }
      UpperEmpty(queuelist[..], prio);
      empty := len == 0;
    }

    /** aicwf_frame_dequeue: lowers the cached bound to the highest level in use on the way. */
    method DequeueFrame() returns (f: Option<Frame>)
      requires Valid()
      modifies this`hiPrio, this`qcnt, queuelist
      ensures Valid()
      ensures (View(), f) == Dequeue(old(View()))
      ensures f.None? <==> old(qcnt) == 0
    {
      hide Total, Highest;
      ghost var q := View();
      ghost var high := Highest(q);
      TotalZero(q);
      if qcnt == 0 {
        return None;
      }
      ReplaceLevel(q, high, q[high][1..], 0);
      while hiPrio > 0 && queuelist[hiPrio] == []
        modifies this`hiPrio
        invariant high <= hiPrio < numPrio
        invariant forall p :: hiPrio < p < LEVELS ==> queuelist[p] == []
      {
        hiPrio := hiPrio - 1;
      }
      assert hiPrio == high;
      f := Some(queuelist[hiPrio][0]);
      queuelist[hiPrio] := queuelist[hiPrio][1..];
      assert View() == q[high := q[high][1..]];
      qcnt := qcnt - 1;
    }

    /** aicwf_frame_enq */
    method Enq(f: Frame, prio: nat) returns (ok: bool, freed: Option<Frame>)
      requires Valid() && prio < numPrio
      modifies this`hiPrio, this`qcnt, queuelist
      ensures Valid()
      ensures Enqueued(View(), ok, freed) == Enqueue(old(View()), qmax, f, prio)
    {
      freed := None;
      hide Total, Lowest;
      ghost var q := View();
      ReplaceLevel(q, prio, q[prio], f);
      if |queuelist[prio]| < qmax && qcnt < qmax {
        ok := Penq(prio, f);
        return;
      }
      var modified := -1;
      var victim := None;
      if |queuelist[prio]| >= qmax {
        OnlyLevel(q, prio);
        modified := prio;
      } else if qcnt >= qmax {
        modified, victim := PeekTail();
        if modified > prio {
          return false, None;
        }
      }
      ok := victim.Some?;
      if modified >= 0 {
        if modified == prio {
          return false, None;
        }
        freed := victim;
        ReplaceLevel(q, modified, Front(q[modified]), f);
        queuelist[modified] := queuelist[modified][..|queuelist[modified]| - 1];
        assert queuelist[..] == q[modified := Front(q[modified])];
        qcnt := qcnt - 1;
        ok := Penq(modified, f);
        assert View() == q[modified := Front(q[modified]) + [f]];
      }
    }

    /** aicwf_frame_queue_flush */
    method Flush()
      requires Valid()
      modifies this`qcnt, queuelist
      ensures Valid() && View() == Empty()
    {
      for prio := 0 to numPrio
        invariant Valid()
        invariant forall p :: 0 <= p < prio || numPrio <= p < LEVELS ==> queuelist[p] == []
      {
        while queuelist[prio] != []
          invariant Valid()
          invariant forall p :: 0 <= p < prio || numPrio <= p < LEVELS ==> queuelist[p] == []
          decreases |queuelist[prio]|
        {
          ghost var q := View();
          ReplaceLevel(q, prio, q[prio][1..], 0);
          queuelist[prio] := queuelist[prio][1..];
          assert View() == q[prio := q[prio][1..]];
          qcnt := qcnt - 1;
        }
      }
    }
  }

  /** Levels that are empty add nothing. */
  lemma {:induction false} UpperEmpty(q: seq<seq<Frame>>, n: nat)
    requires n <= |q| && forall p :: n <= p < |q| ==> q[p] == []
    ensures Total(q[..n]) == Total(q)
  {
    if n < |q| {
      var init := q[..|q| - 1];
      UpperEmpty(init, n);
      assert init[..n] == q[..n];
    } else {
      assert q[..n] == q;
    }
  }

  /** A level that alone reaches the total is the only one in use. */
  lemma OnlyLevel(q: Levels, p: nat)
    requires p < LEVELS && Total(q) <= |q[p]|
    ensures Lowest(q) == if q[p] == [] then -1 else p
  {
    ReplaceLevel(q, p, [], 0);
    TotalZero(q[p := []]);
    assert forall i :: 0 <= i < LEVELS && i != p ==> q[i] == q[p := []][i];
  }
}
