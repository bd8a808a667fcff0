/** The frame pipeline of `nv12` mode as a transition system: the reader thread, the three-slot ring,
    the presenting thread and the display's source latch. Each event is one critical section, or a
    stretch of code that no other thread can see into. */
module Present {

  const SLOTS: nat := 3   // RING_SLOTS

  /** What is fixed during a run: the complete frames that arrive, the conversion, the frame limit. */
  datatype Film<!F, I> = Film(frames: seq<F>, convert: F -> I, limit: nat)

  datatype Reader =
    | Checking              // about to lock and test whether the head slot is free
    | Sleeping              // in pthread_cond_wait on `space`
    | Filling               // outside the lock, reading into the head slot
    | Exited

  datatype Presenter =
    | Asking                // about to lock and test whether the tail slot is filled
    | Waiting               // in pthread_cond_wait on `item`
    | Converting            // holds the tail slot
    | Releasing             // picture staged, tail slot still held
    | Copying               // slot handed back, staged picture going to the target buffer
    | Flipping              // target buffer complete
    | Committing            // source register written, waiting for the latch
    | Stopping              // out of the loop
    | Ended

  datatype Ring<F> = Ring(filled: seq<bool>, slots: seq<F>, head: nat, tail: nat, eof: bool, stop: bool)

  /** Two frame buffers, the source register, a pending hand-over, and the buffer being scanned out. */
  datatype Display<I> = Display(buffers: seq<I>, source: nat, ready: bool, scanned: nat)

  datatype Pipeline<F, I> = Pipeline(
    ring: Ring<F>, reader: Reader, produced: nat,
    presenter: Presenter, n: nat, stage: I,
    display: Display<I>, timeouts: nat, shown: seq<I>)

  datatype Event<F, I> =
    | ReaderChecks
    | ReaderFills(junk: F)          // part of a frame has arrived in the head slot
    | ReaderCompletes               // the rest of it has, and the slot is published
    | ReaderHitsEnd                 // short read
    | PresenterAsks
    | PresenterConverts
    | PresenterReleases
    | PresenterCopies(torn: I)      // part of the staged picture has reached the target buffer
    | PresenterCopied
    | PresenterFlips
    | Latch                         // the display takes over the source register
    | CommitReturns
    | CommitTimesOut
    | PresenterStops
    | ReaderStirs                   // pthread_cond_wait returns without a signal
    | PresenterStirs

  /** The slot `j` places after `i` round the ring. */
  function Slot(i: nat, j: nat): (k: nat)
    requires i < SLOTS && j <= SLOTS
    ensures k < SLOTS && k == (i + j) % 3
  {
    if i + j < 3 then i + j else i + j - 3
  }

  predicate WellFormed<F, I>(s: Pipeline<F, I>) {
    |s.ring.filled| == SLOTS && |s.ring.slots| == SLOTS && s.ring.head < SLOTS && s.ring.tail < SLOTS &&
    |s.display.buffers| == 2
  }

  predicate Enabled<F, I>(film: Film<F, I>, s: Pipeline<F, I>, e: Event<F, I>) {
    match e
    case ReaderChecks => s.reader.Checking?
    case ReaderFills(_) => s.reader.Filling?
    case ReaderCompletes => s.reader.Filling? && s.produced < |film.frames|
    case ReaderHitsEnd => s.reader.Filling? && s.produced == |film.frames|
    case PresenterAsks => s.presenter.Asking?
    case PresenterConverts => s.presenter.Converting?
    case PresenterReleases => s.presenter.Releasing?
    case PresenterCopies(_) => s.presenter.Copying?
    case PresenterCopied => s.presenter.Copying?
    case PresenterFlips => s.presenter.Flipping?
    case Latch => s.display.ready
    case CommitReturns => s.presenter.Committing? && !s.display.ready
    case CommitTimesOut => s.presenter.Committing?
    case PresenterStops => s.presenter.Stopping?
    case ReaderStirs => s.reader.Sleeping?
    case PresenterStirs => s.presenter.Waiting?
  }

  // pthread_cond_signal and pthread_cond_broadcast: a sleeper goes back to testing its condition.
  function WakeReader(r: Reader): Reader { if r.Sleeping? then Checking else r }
  function WakePresenter(p: Presenter): Presenter { if p.Waiting? then Asking else p }

  /** The ring after a complete frame has been put into its head slot. */
  function Published<F>(r: Ring<F>, frame: F): Ring<F>
    requires r.head < |r.slots| == |r.filled| == SLOTS
  {
    r.(slots := r.slots[r.head := frame], filled := r.filled[r.head := true], head := Slot(r.head, 1))
  }

  /** The ring after its tail slot has been given back. */
  function HandedBack<F>(r: Ring<F>): Ring<F>
    requires r.tail < |r.filled| == SLOTS
  {
    r.(filled := r.filled[r.tail := false], tail := Slot(r.tail, 1))
  }

  function Step<F, I>(film: Film<F, I>, s: Pipeline<F, I>, e: Event<F, I>): Pipeline<F, I>
    requires WellFormed(s) && Enabled(film, s, e)
  {
    var r, d := s.ring, s.display;
    match e
    case ReaderChecks =>
      s.(reader := if r.stop then Exited else if r.filled[r.head] then Sleeping else Filling)
    case ReaderFills(junk) => s.(ring := r.(slots := r.slots[r.head := junk]))
    case ReaderCompletes =>
      s.(ring := Published(r, film.frames[s.produced]),
         produced := s.produced + 1, reader := Checking, presenter := WakePresenter(s.presenter))
    case ReaderHitsEnd =>
      s.(ring := r.(eof := true), reader := Exited, presenter := WakePresenter(s.presenter))
    case PresenterAsks =>
      s.(presenter := if s.n >= film.limit then Stopping else if r.filled[r.tail] then Converting
                      else if r.eof then Stopping else Waiting)
    case PresenterConverts => s.(stage := film.convert(r.slots[r.tail]), presenter := Releasing)
    case PresenterReleases =>
      s.(ring := HandedBack(r),
         reader := WakeReader(s.reader), presenter := Copying)
    case PresenterCopies(torn) => s.(display := d.(buffers := d.buffers[s.n % 2 := torn]))
    case PresenterCopied => s.(display := d.(buffers := d.buffers[s.n % 2 := s.stage]), presenter := Flipping)
    case PresenterFlips =>
      s.(display := d.(source := s.n % 2, ready := true), presenter := Committing,
         shown := s.shown + [d.buffers[s.n % 2]])
    case Latch => s.(display := d.(scanned := d.source, ready := false))
    case CommitReturns => s.(n := s.n + 1, presenter := Asking)
    case CommitTimesOut => s.(n := s.n + 1, presenter := Asking, timeouts := s.timeouts + 1)
    case PresenterStops => s.(ring := r.(stop := true), reader := WakeReader(s.reader), presenter := Ended)
    case ReaderStirs => s.(reader := Checking)
    case PresenterStirs => s.(presenter := Asking)
  }

  /** The state after `pthread_create`, whatever the buffers hold and whichever one is scanned. */
  predicate Initial<F, I>(s: Pipeline<F, I>) {
    && WellFormed(s)
    && s.ring.filled == [false, false, false] && s.ring.head == 0 && s.ring.tail == 0
    && !s.ring.eof && !s.ring.stop
    && s.reader.Checking? && s.produced == 0 && s.presenter.Asking? && s.n == 0
    && !s.display.ready && s.display.source < 2 && s.display.scanned < 2 && s.timeouts == 0 && s.shown == []
  }

  // ------------------------------------------------------------------
  // What every run keeps

  /** Frames whose slot has been handed back. */
  function Released<F, I>(s: Pipeline<F, I>): nat {
    if s.presenter.Copying? || s.presenter.Flipping? || s.presenter.Committing? then s.n + 1 else s.n
  }

  /** The filled slots are exactly the cyclic interval from tail to head, and hold, in order, the
      frames read but not yet handed back. */
  ghost predicate Holds<F>(r: Ring<F>, first: nat, last: nat, frames: seq<F>) {
    && |r.filled| == SLOTS && |r.slots| == SLOTS
    && first <= last <= first + SLOTS && last <= |frames|
    && r.tail < SLOTS && r.head == Slot(r.tail, last - first)
    && (forall j :: 0 <= j < SLOTS ==>
          && r.filled[Slot(r.tail, j)] == (first + j < last)
          && (first + j < last ==> r.slots[Slot(r.tail, j)] == frames[first + j]))
  }

  ghost predicate RingHolds<F, I>(film: Film<F, I>, s: Pipeline<F, I>) {
    WellFormed(s) && Holds(s.ring, Released(s), s.produced, film.frames)
  }

  /** What the two ends of the ring tell the threads. */
  lemma RingEnds<F>(r: Ring<F>, first: nat, last: nat, frames: seq<F>)
    requires Holds(r, first, last, frames)
    ensures r.head < SLOTS && r.tail < SLOTS
    ensures r.filled[r.tail] <==> first < last
    ensures r.filled[r.head] <==> last == first + SLOTS
    ensures first < last ==> r.slots[r.tail] == frames[first]
    ensures r.head == r.tail <==> last == first || last == first + SLOTS
  {
    assert Slot(r.tail, 0) == r.tail;
  }

  lemma RingFill<F>(r: Ring<F>, first: nat, last: nat, frames: seq<F>, junk: F)
    requires Holds(r, first, last, frames) && last < first + SLOTS
    ensures Holds(r.(slots := r.slots[r.head := junk]), first, last, frames)
  {
  }

  lemma RingPublish<F>(r: Ring<F>, first: nat, last: nat, frames: seq<F>)
    requires Holds(r, first, last, frames) && last < first + SLOTS && last < |frames|
    ensures Holds(Published(r, frames[last]), first, last + 1, frames)
  {
  }

  lemma MoreFrames<F>(r: Ring<F>, first: nat, last: nat, frames: seq<F>, frame: F)
    requires Holds(r, first, last, frames)
    ensures Holds(r, first, last, frames + [frame])
  {
  }

  lemma RingFlags<F>(r: Ring<F>, first: nat, last: nat, frames: seq<F>, eof: bool, stop: bool)
    requires Holds(r, first, last, frames)
    ensures Holds(r.(eof := eof, stop := stop), first, last, frames)
  {
  }

  lemma RingRelease<F>(r: Ring<F>, first: nat, last: nat, frames: seq<F>)
    requires Holds(r, first, last, frames) && first < last
    ensures Holds(HandedBack(r), first + 1, last, frames)
  {
    RingEnds(r, first, last, frames);
    assert forall j :: 0 <= j < SLOTS ==> Slot(Slot(r.tail, 1), j) == Slot(r.tail, if j == 2 then 0 else j + 1);
  }

  /** Between getting a frame and the end of its commit. */
  predicate Busy(p: Presenter) {
    p.Converting? || p.Releasing? || p.Copying? || p.Flipping? || p.Committing?
  }

  /** Both threads are where their view of the ring lets them be; in particular a thread asleep on a
      condition variable still has nothing to do. */
  ghost predicate ThreadsFit<F, I>(film: Film<F, I>, s: Pipeline<F, I>) {
    var held := s.produced - Released(s);
    && (s.reader.Filling? ==> held < SLOTS)
    && (s.reader.Sleeping? ==> held == SLOTS && !s.ring.stop)
    && (s.reader.Exited? ==> s.ring.eof || s.ring.stop)
    && (s.ring.eof ==> s.reader.Exited? && s.produced == |film.frames|)
    && (s.presenter.Waiting? ==> held == 0 && !s.ring.eof)
    && (s.presenter.Converting? || s.presenter.Releasing? ==> held >= 1)
    && (s.ring.stop <==> s.presenter.Ended?)
    && (s.presenter.Stopping? || s.presenter.Ended? ==> s.n >= film.limit || s.n == |film.frames|)
    && s.n <= film.limit
    && (Busy(s.presenter) ==> s.n < film.limit)
  }

  /** What has been staged, copied and shown. */
  ghost predicate PicturesFit<F, I>(film: Film<F, I>, s: Pipeline<F, I>) {
    var p, d := s.presenter, s.display;
    && |d.buffers| == 2 && s.n <= |film.frames| && d.source < 2 && d.scanned < 2
    && (p.Releasing? || p.Copying? || p.Flipping? || p.Committing? ==>
          s.n < |film.frames| && s.stage == film.convert(film.frames[s.n]))
    && (p.Flipping? || p.Committing? ==> d.buffers[s.n % 2] == s.stage)
    && (s.n >= 1 ==> d.buffers[(s.n - 1) % 2] == film.convert(film.frames[s.n - 1]))
    && |s.shown| == (if p.Committing? then s.n + 1 else s.n)
    && (forall i :: 0 <= i < |s.shown| ==> i < |film.frames| && s.shown[i] == film.convert(film.frames[i]))
    && (p.Committing? ==> d.source == s.n % 2)
    && (!p.Committing? && s.n >= 1 ==> d.source == (s.n - 1) % 2)
    && (s.timeouts == 0 ==>
          && (d.ready ==> p.Committing? && (s.n >= 1 ==> d.scanned == (s.n - 1) % 2))
          && (!d.ready && s.n + (if p.Committing? then 1 else 0) >= 1 ==> d.scanned == d.source))
  }

  ghost predicate Inv<F, I>(film: Film<F, I>, s: Pipeline<F, I>) {
    RingHolds(film, s) && ThreadsFit(film, s) && PicturesFit(film, s)
  }

  lemma InitialInv<F, I>(film: Film<F, I>, s: Pipeline<F, I>)
    requires Initial(s)
    ensures Inv(film, s)
  {
  }

  lemma RingStep<F, I>(film: Film<F, I>, s: Pipeline<F, I>, e: Event<F, I>)
    requires RingHolds(film, s) && ThreadsFit(film, s) && Enabled(film, s, e)
    ensures RingHolds(film, Step(film, s, e))
  {
    hide Holds, Slot;
    var first := Released(s);
    match e {
      case ReaderFills(junk) => RingFill(s.ring, first, s.produced, film.frames, junk);
      case ReaderCompletes => RingPublish(s.ring, first, s.produced, film.frames);
      case PresenterReleases => RingRelease(s.ring, first, s.produced, film.frames);
      case ReaderHitsEnd => RingFlags(s.ring, first, s.produced, film.frames, true, s.ring.stop);
      case PresenterStops => RingFlags(s.ring, first, s.produced, film.frames, s.ring.eof, true);
      case _ =>
    }
  }

  lemma ThreadsStep<F, I>(film: Film<F, I>, s: Pipeline<F, I>, e: Event<F, I>)
    requires Inv(film, s) && Enabled(film, s, e)
    ensures ThreadsFit(film, Step(film, s, e))
  {
    RingEnds(s.ring, Released(s), s.produced, film.frames);
    hide Holds, PicturesFit, Slot;
  }

  lemma PicturesStep<F, I>(film: Film<F, I>, s: Pipeline<F, I>, e: Event<F, I>)
    requires Inv(film, s) && Enabled(film, s, e)
    ensures PicturesFit(film, Step(film, s, e))
  {
    RingEnds(s.ring, Released(s), s.produced, film.frames);
    hide Slot;
  }

  /** A run: events that are not enabled when their turn comes have no effect. */
  ghost function Run<F, I>(film: Film<F, I>, s: Pipeline<F, I>, es: seq<Event<F, I>>): Pipeline<F, I> {
    if es == [] then s
    else
      var t := Run(film, s, es[..|es| - 1]);
      if WellFormed(t) && Enabled(film, t, es[|es| - 1]) then Step(film, t, es[|es| - 1]) else t
  }

  /** Every interleaving of reader, presenter and display keeps the invariant. */
  lemma {:induction false} RunInv<F, I>(film: Film<F, I>, s: Pipeline<F, I>, es: seq<Event<F, I>>)
    requires Inv(film, s)
    ensures Inv(film, Run(film, s, es))
  {
    hide Step, Enabled, RingHolds, ThreadsFit, PicturesFit;
    if es != [] {
      var t := Run(film, s, es[..|es| - 1]);
      RunInv(film, s, es[..|es| - 1]);
      if WellFormed(t) && Enabled(film, t, es[|es| - 1]) {
        RingStep(film, t, es[|es| - 1]);
        ThreadsStep(film, t, es[|es| - 1]);
        PicturesStep(film, t, es[|es| - 1]);
      }
    }
  }

  // ------------------------------------------------------------------
  // Theorems over every run

  /** The reader never writes into the slot the presenter holds. */
  lemma NoSharedSlot<F, I>(film: Film<F, I>, s: Pipeline<F, I>, es: seq<Event<F, I>>)
    requires Initial(s)
    ensures var t := Run(film, s, es);
            t.reader.Filling? && (t.presenter.Converting? || t.presenter.Releasing?) ==>
              t.ring.head != t.ring.tail && t.n < |film.frames| && t.ring.tail < |t.ring.slots|
              && t.ring.slots[t.ring.tail] == film.frames[t.n]
  {
    InitialInv(film, s);
    RunInv(film, s, es);
    hide Run;
    var t := Run(film, s, es);
    RingEnds(t.ring, Released(t), t.produced, film.frames);
  }

  /** The next thing that can happen in a state where not both threads are done. */
  function NextEvent<F, I>(film: Film<F, I>, s: Pipeline<F, I>): Event<F, I> {
    match s.presenter
    case Asking => PresenterAsks
    case Converting => PresenterConverts
    case Releasing => PresenterReleases
    case Copying => PresenterCopied
    case Flipping => PresenterFlips
    case Committing => if s.display.ready then Latch else CommitReturns
    case Stopping => PresenterStops
    case _ =>
      if s.reader.Checking? then ReaderChecks
      else if s.produced < |film.frames| then ReaderCompletes
      else ReaderHitsEnd
  }

  /** A thread asleep on its condition variable has nothing to do, not both are asleep, and until both
      have finished some thread can move. */
  ghost predicate Unblocked<F, I>(film: Film<F, I>, t: Pipeline<F, I>) {
    && WellFormed(t)
    && (t.reader.Sleeping? ==> t.ring.filled[t.ring.head] && !t.ring.stop && !t.presenter.Waiting?)
    && (t.presenter.Waiting? ==> !t.ring.filled[t.ring.tail] && !t.ring.eof && !t.reader.Sleeping?)
    && (!(t.reader.Exited? && t.presenter.Ended?) ==> Enabled(film, t, NextEvent(film, t)))
  }

  lemma InvUnblocked<F, I>(film: Film<F, I>, t: Pipeline<F, I>)
    requires Inv(film, t)
    ensures Unblocked(film, t)
  {
    RingEnds(t.ring, Released(t), t.produced, film.frames);
    hide Holds, PicturesFit;
  }

  /** No wake-up is lost and the two sides are never both blocked. */
  lemma NeverBothBlocked<F, I>(film: Film<F, I>, s: Pipeline<F, I>, es: seq<Event<F, I>>)
    requires Initial(s)
    ensures Unblocked(film, Run(film, s, es))
  {
    InitialInv(film, s);
    RunInv(film, s, es);
    InvUnblocked(film, Run(film, s, es));
  }

  /** End to end: the n-th flip shows the conversion of the n-th complete frame, although its slot is
      handed back before the copy; when the presenter stops short of the limit, every complete frame
      has been shown, each once and in order. */
  lemma ShownInOrder<F, I>(film: Film<F, I>, s: Pipeline<F, I>, es: seq<Event<F, I>>)
    requires Initial(s)
    ensures var t := Run(film, s, es);
            && |t.shown| <= |film.frames| && |t.shown| <= film.limit
            && (forall i :: 0 <= i < |t.shown| ==> t.shown[i] == film.convert(film.frames[i]))
            && ((t.presenter.Stopping? || t.presenter.Ended?) && t.n < film.limit ==> |t.shown| == |film.frames|)
  {
    InitialInv(film, s);
    RunInv(film, s, es);
    hide Run;
  }

  /** From the second frame on: the copy hits the buffer being scanned out exactly when the last flip
      has not been latched; while no commit has timed out it never does, and the scanned buffer holds
      one complete picture. */
  ghost predicate Unbroken<F, I>(film: Film<F, I>, t: Pipeline<F, I>) {
    var d := t.display;
    t.n >= 1 ==>
      && d.scanned < |d.buffers| && t.n <= |film.frames|
      && (t.presenter.Copying? ==> (d.scanned == t.n % 2 <==> d.scanned != d.source))
      && (t.timeouts == 0 && t.presenter.Copying? ==> d.scanned != t.n % 2)
      && (t.timeouts == 0 ==>
            || d.buffers[d.scanned] == film.convert(film.frames[t.n - 1])
            || (t.presenter.Committing? && t.n < |film.frames|
                && d.buffers[d.scanned] == film.convert(film.frames[t.n])))
  }

  lemma InvUnbroken<F, I>(film: Film<F, I>, t: Pipeline<F, I>)
    requires PicturesFit(film, t)
    ensures Unbroken(film, t)
  {
  }

  /** In every run the display never shows a picture while it is being overwritten, unless a commit
      has timed out or it is the very first one. */
  lemma NoTearing<F, I>(film: Film<F, I>, s: Pipeline<F, I>, es: seq<Event<F, I>>)
    requires Initial(s)
    ensures Unbroken(film, Run(film, s, es))
  {
    InitialInv(film, s);
    RunInv(film, s, es);
    InvUnbroken(film, Run(film, s, es));
  }

  lemma RunSnoc<F, I>(film: Film<F, I>, s: Pipeline<F, I>, es: seq<Event<F, I>>, e: Event<F, I>)
    ensures var t := Run(film, s, es);
            Run(film, s, es + [e]) == if WellFormed(t) && Enabled(film, t, e) then Step(film, t, e) else t
  {
  }

  /** A schedule in which the first commit times out, and where everything is before its i-th event. */
  function Plan<F, I>(i: nat): Event<F, I> {
    if i == 0 || i == 8 then ReaderChecks
    else if i == 1 || i == 9 then ReaderCompletes
    else if i == 2 || i == 10 then PresenterAsks
    else if i == 3 || i == 11 then PresenterConverts
    else if i == 4 || i == 12 then PresenterReleases
    else if i == 5 then PresenterCopied
    else if i == 6 then PresenterFlips
    else CommitTimesOut
  }

  ghost predicate OnPlan<F, I>(film: Film<F, I>, t: Pipeline<F, I>, i: nat) {
    && Inv(film, t) && t.display.scanned == 1 && !t.ring.stop
    && t.timeouts == (if i >= 8 then 1 else 0) && t.n == t.timeouts
    && t.produced == (if i >= 10 then 2 else if i >= 2 then 1 else 0)
    && t.reader == (if i == 1 || i == 9 then Filling else Checking)
    && t.presenter == (if i == 3 || i == 11 then Converting else if i == 4 || i == 12 then Releasing
                       else if i == 5 || i == 13 then Copying else if i == 6 then Flipping
                       else if i == 7 then Committing else Asking)
  }

  lemma PlanStep<F, I>(film: Film<F, I>, t: Pipeline<F, I>, i: nat)
    requires i < 13 && OnPlan(film, t, i) && |film.frames| >= 2 && film.limit >= 2
    ensures WellFormed(t) && Enabled(film, t, Plan(i)) && OnPlan(film, Step(film, t, Plan(i)), i + 1)
  {
    RingEnds(t.ring, Released(t), t.produced, film.frames);
    RingStep(film, t, Plan(i));
    ThreadsStep(film, t, Plan(i));
    PicturesStep(film, t, Plan(i));
    hide Holds, ThreadsFit, PicturesFit, Slot;
  }

  /** One timed-out commit is enough: from a display that scans the back buffer, the second frame is
      copied into the buffer being scanned. */
  lemma TimeoutCanTear<F, I>(film: Film<F, I>, s: Pipeline<F, I>) returns (es: seq<Event<F, I>>)
    requires Initial(s) && s.display.scanned == 1 && |film.frames| >= 2 && film.limit >= 2
    ensures var t := Run(film, s, es);
            t.presenter.Copying? && t.n == 1 && t.timeouts == 1 && t.display.scanned == t.n % 2
  {
    InitialInv(film, s);
    es := [];
    for i := 0 to 13
      invariant OnPlan(film, Run(film, s, es), i)
    {
      hide Step, Inv, Enabled;
      PlanStep(film, Run(film, s, es), i);
      RunSnoc(film, s, es, Plan(i));
      es := es + [Plan(i)];
    }
  }

  // ------------------------------------------------------------------
  // The ring as the two threads share it

  /** `struct reader`: every method body is one critical section. */
  class FrameRing<F(!new)> {
    const filled: array<bool>
    const slots: array<F>
    var head: nat
    var tail: nat
    var eof: bool
    var stop: bool
    /** Every frame published so far, and how many of them have been handed back. */
    ghost var published: seq<F>
    ghost var returned: nat

    ghost function View(): Ring<F>
      reads this, filled, slots
    {
      Ring(filled[..], slots[..], head, tail, eof, stop)
    }

    ghost predicate Valid()
      reads this, filled, slots
    {
      filled as object != slots && Holds(View(), returned, |published|, published)
    }

    constructor (blank: F)
      ensures Valid() && published == [] && returned == 0 && !eof && !stop
      ensures fresh(filled) && fresh(slots)
    {
      filled := new bool[SLOTS](_ => false);
      slots := new F[SLOTS](_ => blank);
      head, tail, eof, stop := 0, 0, false, false;
      published, returned := [], 0;
    }

    /** The locked test of reader_thread: what the reader does next. */
    method ReaderCheck() returns (next: Reader)
      requires Valid()
      ensures next == if stop then Exited else if |published| == returned + SLOTS then Sleeping else Filling
    {
      RingEnds(View(), returned, |published|, published);
      if filled[head] && !stop {
        return Sleeping;
      }
      next := if stop then Exited else Filling;
    }

    /** The locked end of reader_thread's loop body, for a complete frame. */
    method Publish(frame: F)
      requires Valid() && |published| < returned + SLOTS
      modifies this`head, this`published, filled, slots
      ensures Valid() && published == old(published) + [frame]
    {
      RingEnds(View(), returned, |published|, published);
      MoreFrames(View(), returned, |published|, published, frame);
      RingPublish(View(), returned, |published|, published + [frame]);
      hide Holds;
      slots[head] := frame;
      filled[head] := true;
      head := (head + 1) % SLOTS;
      published := published + [frame];
      assert filled[..] == old(filled[..])[old(head) := true] && slots[..] == old(slots[..])[old(head) := frame];
      assert View() == Published(old(View()), frame);
    }

    /** reader_get: the frame, or what to do instead. */
    method Get() returns (next: Presenter, frame: F)
      requires Valid()
      ensures next == if returned < |published| then Converting else if eof then Stopping else Waiting
      ensures next.Converting? ==> frame == published[returned]
    {
      RingEnds(View(), returned, |published|, published);
      frame := slots[tail];
      if !filled[tail] && !eof {
        return Waiting, frame;
      }
      next := if filled[tail] then Converting else Stopping;
    }

    /** reader_release */
    method Release()
      requires Valid() && returned < |published|
      modifies this`tail, this`returned, filled
      ensures Valid() && returned == old(returned) + 1
    {
      RingEnds(View(), returned, |published|, published);
      RingRelease(View(), returned, |published|, published);
      hide Holds;
      filled[tail] := false;
      tail := (tail + 1) % SLOTS;
      returned := returned + 1;
      assert filled[..] == old(filled[..])[old(tail) := false];
      assert View() == HandedBack(old(View()));
    }
  }
}
