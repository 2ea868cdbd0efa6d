/** Nobody is ever stuck on the transmit ring: once no new write begins, every
    move brings the end nearer, and while there is work somebody can move. */
module RingProgress {
  import opened Wire
  import opened TxRing
  import opened RingSafety
  import opened RingTheorems

  // ---------- sums ----------

  function Sum(ws: seq<nat>): nat {
    if ws == [] then 0 else Sum(ws[..|ws| - 1]) + ws[|ws| - 1]
  }

  lemma {:induction false} SumUpdate(ws: seq<nat>, i: nat, x: nat)
    requires i < |ws|
    ensures Sum(ws[i := x]) + ws[i] == Sum(ws) + x
  {
    var init := ws[..|ws| - 1];
    if i == |ws| - 1 {
      assert ws[i := x][..i] == init;
    } else {
      SumUpdate(init, i, x);
      assert ws[i := x][..|ws| - 1] == init[i := x];
    }
  }

  lemma {:induction false} SumAtMost(ws: seq<nat>, vs: seq<nat>)
    requires |ws| == |vs| && forall i :: 0 <= i < |ws| ==> ws[i] <= vs[i]
    ensures Sum(ws) <= Sum(vs)
  {
    if ws != [] {
      SumAtMost(ws[..|ws| - 1], vs[..|vs| - 1]);
    }
  }

  lemma {:induction false} SumBound(ws: seq<nat>, b: nat)
    requires forall i :: 0 <= i < |ws| ==> ws[i] <= b
    ensures Sum(ws) <= b * |ws|
  {
    if ws != [] {
      SumBound(ws[..|ws| - 1], b);
      assert b * |ws| == b * (|ws| - 1) + b;
    }
  }

  // ---------- how much is left to do ----------

  function ProducerWork(p: Producer): nat {
    match p
    case PIdle => 0
    case PCounted(_) => 6
    case PFilled(_) => 7
    case PHeld(_) => 8
    case PReady(_) => 16
    case PClaimed(_) => 17
    case PLoaded(_) => 18
    case PChecked => 19
  }

  function PhaseWork(p: Phase): nat {
    match p
    case Held => 7
    case Written => 6
    case Claimed => 5
    case Requested => 3
    case Completed => 1
    case Released => 0
  }

  function FlusherWork(fl: Flusher): nat {
    match fl
    case FTaken(_) => 4
    case FMarking(_, _, _, _) => 3
    case FSending(_, _) => 2
    case FReleasing(_, _, _, _, _) => 1
    case _ => 0
  }

  /** How far a flusher at rest is from an answer about the published index: a
      stale value it has read costs a failed swap and another read. */
  function Patience(fl: Flusher, published: int): nat {
    match fl
    case FIdle => 2
    case FLoaded(index) => if index == published then 1 else 3
    case _ => 2
  }

  function FrameWorks(frames: seq<Frame>): (ws: seq<nat>)
    ensures |ws| == |frames| && forall k :: 0 <= k < |ws| ==> ws[k] == PhaseWork(frames[k].phase)
  {
    seq(|frames|, k requires 0 <= k < |frames| => PhaseWork(frames[k].phase))
  }

  function StatusWorks(status: seq<Status>): (ws: seq<nat>)
    ensures |ws| == |status| && forall i :: 0 <= i < |ws| ==> ws[i] == if status[i] == SendRequest then 1 else 0
  {
    seq(|status|, i requires 0 <= i < |status| => if status[i] == SendRequest then 1 else 0)
  }

  function FlusherWorks(flushers: seq<Flusher>): (ws: seq<nat>)
    ensures |ws| == |flushers| && forall f :: 0 <= f < |ws| ==> ws[f] == FlusherWork(flushers[f])
  {
    seq(|flushers|, f requires 0 <= f < |flushers| => FlusherWork(flushers[f]))
  }

  function Patiences(flushers: seq<Flusher>, published: int): (ws: seq<nat>)
    ensures |ws| == |flushers| && forall f :: 0 <= f < |ws| ==> ws[f] == Patience(flushers[f], published)
  {
    seq(|flushers|, f requires 0 <= f < |flushers| => Patience(flushers[f], published))
  }

  function FramesLeft(frames: seq<Frame>): nat { Sum(FrameWorks(frames)) }

  function RequestsLeft(status: seq<Status>): nat { Sum(StatusWorks(status)) }

  function FlushesLeft(flushers: seq<Flusher>): nat { Sum(FlusherWorks(flushers)) }

  function Duty(s: Ring): nat {
    ProducerWork(s.producer) + (if s.txWrittenIndex != -1 then 5 else 0) +
    FramesLeft(s.frames) + RequestsLeft(s.status) + FlushesLeft(s.flushers)
  }

  function Waits(s: Ring): nat {
    Sum(Patiences(s.flushers, s.txWrittenIndex))
  }

  /** A bound on the moves that are still to come if no new write begins. */
  function Work(s: Ring): nat {
    var each, duty := 3 * |s.flushers| + 1, Duty(s);
    MulMono(each, 0, duty);
    each * duty + Waits(s)
  }

  predicate Lower(s: Ring, s': Ring) {
    |s'.flushers| == |s.flushers| && (Duty(s') < Duty(s) || (Duty(s') == Duty(s) && Waits(s') < Waits(s)))
  }

  lemma LowerWork(s: Ring, s': Ring)
    requires Lower(s, s')
    ensures Work(s') < Work(s)
  {
    SumBound(Patiences(s'.flushers, s'.txWrittenIndex), 3);
    var k := 3 * |s.flushers| + 1;
    if Duty(s') < Duty(s) {
      MulMono(k, Duty(s') + 1, Duty(s));
      assert k * (Duty(s') + 1) == k * Duty(s') + k;
    }
  }

  lemma FramePut(frames: seq<Frame>, k: nat, fr: Frame)
    requires k < |frames|
    ensures FramesLeft(frames[k := fr]) + PhaseWork(frames[k].phase) == FramesLeft(frames) + PhaseWork(fr.phase)
  {
    SumUpdate(FrameWorks(frames), k, PhaseWork(fr.phase));
    assert FrameWorks(frames[k := fr]) == FrameWorks(frames)[k := PhaseWork(fr.phase)];
  }

  lemma FrameAdded(frames: seq<Frame>, fr: Frame)
    ensures FramesLeft(frames + [fr]) == FramesLeft(frames) + PhaseWork(fr.phase)
  {
    assert FrameWorks(frames + [fr])[..|frames|] == FrameWorks(frames);
  }

  lemma StatusPut(status: seq<Status>, i: nat, st: Status)
    requires i < |status|
    ensures RequestsLeft(status[i := st]) + (if status[i] == SendRequest then 1 else 0) ==
            RequestsLeft(status) + if st == SendRequest then 1 else 0
  {
    SumUpdate(StatusWorks(status), i, if st == SendRequest then 1 else 0);
    assert StatusWorks(status[i := st]) == StatusWorks(status)[i := if st == SendRequest then 1 else 0];
  }

  lemma FlusherPut(flushers: seq<Flusher>, f: nat, fl: Flusher)
    requires f < |flushers|
    ensures FlushesLeft(flushers[f := fl]) + FlusherWork(flushers[f]) == FlushesLeft(flushers) + FlusherWork(fl)
  {
    SumUpdate(FlusherWorks(flushers), f, FlusherWork(fl));
    assert FlusherWorks(flushers[f := fl]) == FlusherWorks(flushers)[f := FlusherWork(fl)];
  }

  lemma PatiencePut(flushers: seq<Flusher>, f: nat, fl: Flusher, published: int)
    requires f < |flushers|
    ensures Sum(Patiences(flushers[f := fl], published)) + Patience(flushers[f], published) ==
            Sum(Patiences(flushers, published)) + Patience(fl, published)
  {
    SumUpdate(Patiences(flushers, published), f, Patience(fl, published));
    assert Patiences(flushers[f := fl], published) == Patiences(flushers, published)[f := Patience(fl, published)];
  }

  // ---------- every move lowers it ----------

  lemma ProducerLowers(s: Ring, a: Action)
    requires Inv(s) && (a.PLoad? || a.PSwap? || a.PPoll? || a.PPublish?)
    ensures Step(s, a) == s || Lower(s, Step(s, a))
  {
  }

  lemma TakeLowers(s: Ring)
    requires Inv(s)
    ensures TakeFlag(s) == s || Lower(s, TakeFlag(s))
  {
    FrameAdded(s.frames, NewFrame([]));
  }

  lemma FillLowers(s: Ring, payload: Payload)
    requires Inv(s)
    ensures Fill(s, payload) == s || Lower(s, Fill(s, payload))
  {
    if s.producer.PHeld? {
      assert FrameOk(s, s.written);
      FramePut(s.frames, s.written, NewFrame(payload));
    }
  }

  lemma CountLowers(s: Ring)
    requires Inv(s)
    ensures Count(s) == s || Lower(s, Count(s))
  {
    if s.producer.PFilled? {
      assert FrameOk(s, s.written);
      FramePut(s.frames, s.written, s.frames[s.written].(phase := Written));
    }
  }

  /** A read of the published index leaves less to wait for. */
  lemma LoadLowers(s: Ring, f: nat)
    requires f < |s.flushers|
    ensures Load(s, f) == s || Lower(s, Load(s, f))
  {
    FlusherPut(s.flushers, f, FLoaded(s.txWrittenIndex));
    PatiencePut(s.flushers, f, FLoaded(s.txWrittenIndex), s.txWrittenIndex);
  }

  /** So does a swap that fails, because only a stale value makes it fail. */
  lemma SwapLowers(s: Ring, f: nat)
    requires Inv(s) && f < |s.flushers|
    ensures Swap(s, f) == s || Lower(s, Swap(s, f))
  {
    if s.flushers[f].FLoaded? {
      assert FlusherOk(s, f);
      FlusherPut(s.flushers, f, Swap(s, f).flushers[f]);
      PatiencePut(s.flushers, f, FIdle, s.txWrittenIndex);
    }
  }

  lemma ClaimedFrames(s: Ring)
    requires Inv(s)
    ensures FramesLeft(ClaimAll(s.frames, s.claimed, |s.claims|)) <= FramesLeft(s.frames)
  {
    var frames' := ClaimAll(s.frames, s.claimed, |s.claims|);
    forall k | 0 <= k < |s.frames| ensures FrameWorks(frames')[k] <= FrameWorks(s.frames)[k] {
      assert FrameOk(s, k);
    }
    SumAtMost(FrameWorks(frames'), FrameWorks(s.frames));
  }

  lemma TakeAllLowers(s: Ring, f: nat)
    requires Inv(s) && f < |s.flushers|
    ensures TakeAll(s, f) == s || Lower(s, TakeAll(s, f))
  {
    ClaimedFrames(s);
    FlusherPut(s.flushers, f, TakeAll(s, f).flushers[f]);
  }

  lemma MarkLowers(s: Ring, f: nat)
    requires Inv(s) && f < |s.flushers|
    ensures Mark(s, f) == s || Lower(s, Mark(s, f))
  {
    if s.flushers[f].FMarking? {
      FlusherPut(s.flushers, f, Mark(s, f).flushers[f]);
      if s.flushers[f].left > 0 {
        var k := LoopFrame(s, f);
        FramePut(s.frames, k, s.frames[k].(phase := Requested));
        StatusPut(s.status, s.flushers[f].t, SendRequest);
      }
    }
  }

  lemma SendLowers(s: Ring, f: nat)
    requires f < |s.flushers|
    ensures Send(s, f) == s || Lower(s, Send(s, f))
  {
    FlusherPut(s.flushers, f, Send(s, f).flushers[f]);
  }

  lemma GiveBackLowers(s: Ring, f: nat)
    requires Inv(s) && f < |s.flushers| && s.flushers[f].FReleasing? && s.flushers[f].left > 0
    ensures Lower(s, Release(s, f))
  {
    var k := LoopFrame(s, f);
    FlusherPut(s.flushers, f, Release(s, f).flushers[f]);
    FramePut(s.frames, k, s.frames[k].(phase := Released));
  }

  lemma ReleaseLowers(s: Ring, f: nat)
    requires Inv(s) && f < |s.flushers|
    ensures Release(s, f) == s || Lower(s, Release(s, f))
  {
    if s.flushers[f].FReleasing? {
      if s.flushers[f].left > 0 {
        GiveBackLowers(s, f);
      } else {
        FlusherPut(s.flushers, f, FIdle);
      }
    }
  }

  lemma StartLowers(s: Ring, i: nat)
    ensures Start(s, i) == s || Lower(s, Start(s, i))
  {
    if Is(s.status, i, SendRequest) {
      StatusPut(s.status, i, Sending);
    }
  }

  lemma CompleteLowers(s: Ring, i: nat, ok: bool)
    requires Inv(s)
    ensures Complete(s, i, ok) == s || Lower(s, Complete(s, i, ok))
  {
    if i < s.n && Busy(s.status[i]) {
      BusyFrame(s, i);
      var k := s.owner[i];
      FramePut(s.frames, k, s.frames[k].(phase := Completed, doneAt := |s.log|, ok := ok));
      StatusPut(s.status, i, if ok then Available else WrongFormat);
    }
  }

  lemma FlusherLowers(s: Ring, a: Action)
    requires Inv(s) && (a.FLoad? || a.FSwap? || a.FTake? || a.FMark? || a.FSend? || a.FRelease?)
    ensures Step(s, a) == s || Lower(s, Step(s, a))
  {
    if a.f < |s.flushers| {
      match a
      case FLoad(f) => LoadLowers(s, f);
      case FSwap(f) => SwapLowers(s, f);
      case FTake(f) => TakeAllLowers(s, f);
      case FMark(f) => MarkLowers(s, f);
      case FSend(f) => SendLowers(s, f);
      case FRelease(f) => ReleaseLowers(s, f);
    }
  }

  lemma StepLowers(s: Ring, a: Action)
    requires Inv(s) && !a.PCheck?
    ensures Step(s, a) == s || Work(Step(s, a)) < Work(s)
  {
    match a {
      case PTake => TakeLowers(s);
      case PFill(payload) => FillLowers(s, payload);
      case PCount => CountLowers(s);
      case KStart(i) => StartLowers(s, i);
      case KComplete(i, ok) => CompleteLowers(s, i, ok);
      case _ =>
        if a.PLoad? || a.PSwap? || a.PPoll? || a.PPublish? {
          ProducerLowers(s, a);
        } else {
          FlusherLowers(s, a);
        }
    }
    if Step(s, a) != s {
      LowerWork(s, Step(s, a));
    }
  }

  // ---------- while there is work somebody can move ----------

  function NextAction(p: Producer): Action {
    match p
    case PIdle => PCheck
    case PChecked => PLoad
    case PLoaded(_) => PSwap
    case PClaimed(_) => PPoll
    case PReady(_) => PTake
    case PHeld(_) => PFill([])
    case PFilled(_) => PCount
    case PCounted(_) => PPublish
  }

  /** With no flusher at work the producer can go on. */
  lemma ProducerCanMove(s: Ring)
    requires Inv(s) && AllAtRest(s) && !s.producer.PIdle?
    ensures Step(s, NextAction(s.producer)).producer != s.producer
  {
    if s.producer.PClaimed? || s.producer.PReady? {
      WantedSlotIsFree(s);
    }
  }

  /** A flusher at work can go on, or the kernel can complete a frame for it. */
  lemma FlusherCanMove(s: Ring, f: nat) returns (a: Action)
    requires Inv(s) && f < |s.flushers| && !AtRest(s.flushers[f])
    ensures !a.PCheck? && Step(s, a) != s
  {
    match s.flushers[f]
    case FTaken(_) => a := FTake(f);
    case FMarking(_, _, _, _) => a := FMark(f);
    case FReleasing(_, _, _, _, _) => a := FRelease(f);
    case FSending(c, _) =>
      if SendDone(s, c) {
        a := FSend(f);
      } else {
        a := KernelCanMove(s, f);
      }
  }

  lemma KernelCanMove(s: Ring, f: nat) returns (a: Action)
    requires Inv(s) && f < |s.flushers| && s.flushers[f].FSending? && !SendDone(s, s.flushers[f].c)
    ensures !a.PCheck? && Step(s, a) != s
  {
    assert FlusherOk(s, f);
    var k :| 0 <= k < |s.frames| && InClaim(s, s.flushers[f].c, k) && s.frames[k].phase == Requested;
    assert FrameOk(s, k);
    a := KComplete(Slot(k, s.n), true);
    assert |Step(s, a).log| == |s.log| + 1;
  }

  /** What waits is published when nobody is at work, and any flusher can go for it. */
  lemma WaitingIsPublished(s: Ring)
    requires Inv(s) && AllAtRest(s) && s.producer.PIdle? && s.txWritten != 0
    ensures s.txWrittenIndex != -1
  {
  }

  lemma SomeoneCanMove(s: Ring) returns (a: Action)
    requires Inv(s) && |s.flushers| > 0 && !Quiet(s)
    ensures !a.PCheck? && Step(s, a) != s
  {
    if f :| 0 <= f < |s.flushers| && !AtRest(s.flushers[f]) {
      a := FlusherCanMove(s, f);
    } else if !s.producer.PIdle? {
      ProducerCanMove(s);
      a := NextAction(s.producer);
    } else {
      WaitingIsPublished(s);
      a := if s.flushers[0].FIdle? then FLoad(0) else FSwap(0);
      assert Step(s, a).flushers[0] != s.flushers[0];
    }
  }

  // ---------- whole runs ----------

  lemma {:induction false} LeadsToQuiet(s0: Ring, s: Ring) returns (s': Ring)
    requires Inv(s) && |s.flushers| > 0 && LeadsTo(s0, s)
    ensures LeadsTo(s0, s') && Quiet(s')
    decreases Work(s)
  {
    if Quiet(s) {
      s' := s;
    } else {
      var a := SomeoneCanMove(s);
      StepLowers(s, a);
      StepKeepsInv(s, a);
      StepKeepsSetup(s, a);
      LeadsToStep(s0, s, a);
      s' := LeadsToQuiet(s0, Step(s, a));
    }
  }

  /** From every reachable state some continuation ends with everyone through. */
  lemma CanAlwaysFinish(s: Ring, u: Setup)
    requires Reachable(s, u) && u.frameNum > 0 && u.flushers > 0
    ensures exists s' :: LeadsTo(s, s') && Quiet(s')
  {
    ReachableInv(s, u);
    LeadsNowhere(s);
    var s' := LeadsToQuiet(s, s);
  }

  /** How many of the first `i` steps changed the ring. */
  function Moves(trace: seq<Ring>, i: nat): nat
    requires i < |trace|
  {
    if i == 0 then 0 else Moves(trace, i - 1) + if trace[i] != trace[i - 1] then 1 else 0
  }

  /** However the threads interleave, there are no more moves than the work at the
      start, failed swaps included, as long as no new write begins. */
  lemma {:induction false} MovesAreBounded(actions: seq<Action>, trace: seq<Ring>, u: Setup, i: nat)
    requires IsTrace(actions, trace) && Reachable(trace[0], u) && u.frameNum > 0 && i <= |actions|
    requires PCheck !in actions
    ensures Moves(trace, i) + Work(trace[i]) <= Work(trace[0])
  {
    if i > 0 {
      MovesAreBounded(actions, trace, u, i - 1);
      ReachableInv(trace[0], u);
      TraceKeepsInv(actions, trace, i - 1);
      TraceStep(actions, trace, i - 1);
      StepLowers(trace[i - 1], actions[i - 1]);
    }
  }

  // ---------- fairness ----------

  datatype Thread = Writer | Flushing(f: nat) | Kernel(slot: nat)

  function ThreadOf(a: Action): Thread {
    match a
    case FLoad(f) => Flushing(f)
    case FSwap(f) => Flushing(f)
    case FTake(f) => Flushing(f)
    case FMark(f) => Flushing(f)
    case FSend(f) => Flushing(f)
    case FRelease(f) => Flushing(f)
    case KStart(i) => Kernel(i)
    case KComplete(i, _) => Kernel(i)
    case _ => Writer
  }

  ghost predicate FollowsAt(schedule: nat -> Action, run: nat -> Ring, i: nat) {
    !schedule(i).PCheck? && run(i + 1) == Step(run(i), schedule(i))
  }

  /** The states of a schedule in which no new write begins. */
  ghost predicate Follow(schedule: nat -> Action, run: nat -> Ring) {
    forall i: nat :: FollowsAt(schedule, run, i)
  }

  ghost predicate CanMove(s: Ring, t: Thread) {
    exists a: Action :: ThreadOf(a) == t && !a.PCheck? && Step(s, a) != s
  }

  ghost predicate CanMoveFrom(run: nat -> Ring, t: Thread, i: nat) {
    forall j: nat :: i <= j ==> CanMove(run(j), t)
  }

  ghost predicate MovesAfter(schedule: nat -> Action, run: nat -> Ring, t: Thread, i: nat) {
    exists j: nat :: i <= j && ThreadOf(schedule(j)) == t && run(j + 1) != run(j)
  }

  /** A thread that can always move from some time on does move after that time. */
  ghost predicate Fair(schedule: nat -> Action, run: nat -> Ring) {
    forall t: Thread, i: nat :: CanMoveFrom(run, t, i) ==> MovesAfter(schedule, run, t, i)
  }

  ghost predicate SettledAt(run: nat -> Ring, n: nat) {
    forall j: nat :: n <= j ==> run(j) == run(n)
  }

  lemma FollowStep(schedule: nat -> Action, run: nat -> Ring, i: nat)
    requires Follow(schedule, run) && Inv(run(i))
    ensures Inv(run(i + 1)) && |run(i + 1).flushers| == |run(i).flushers|
    ensures run(i + 1) == run(i) || Work(run(i + 1)) < Work(run(i))
  {
    assert FollowsAt(schedule, run, i);
    StepKeepsInv(run(i), schedule(i));
    StepKeepsSetup(run(i), schedule(i));
    StepLowers(run(i), schedule(i));
  }

  lemma {:induction false} FollowKeepsInv(schedule: nat -> Action, run: nat -> Ring, i: nat)
    requires Follow(schedule, run) && Inv(run(0))
    ensures Inv(run(i)) && |run(i).flushers| == |run(0).flushers|
  {
    if i > 0 {
      FollowKeepsInv(schedule, run, i - 1);
      FollowStep(schedule, run, i - 1);
    }
  }

  lemma FollowLowers(schedule: nat -> Action, run: nat -> Ring, i: nat)
    requires Follow(schedule, run) && Inv(run(0))
    ensures run(i + 1) == run(i) || Work(run(i + 1)) < Work(run(i))
  {
    FollowKeepsInv(schedule, run, i);
    FollowStep(schedule, run, i);
  }

  lemma {:induction false} StaysUntilItMoves(run: nat -> Ring, i: nat, j: nat)
    requires i <= j && forall k: nat :: i <= k < j ==> run(k + 1) == run(k)
    ensures run(j) == run(i)
    decreases j
  {
    if i < j {
      StaysUntilItMoves(run, i, j - 1);
      assert run(j - 1 + 1) == run(j - 1);
    }
  }

  lemma {:induction false} WorkFalls(schedule: nat -> Action, run: nat -> Ring, i: nat, j: nat)
    requires Follow(schedule, run) && Inv(run(0)) && i <= j
    ensures Work(run(j)) <= Work(run(i))
    decreases j
  {
    if i < j {
      WorkFalls(schedule, run, i, j - 1);
      FollowLowers(schedule, run, j - 1);
    }
  }

  /** Every schedule comes to a state that it never leaves. */
  lemma {:induction false} Settles(schedule: nat -> Action, run: nat -> Ring, i: nat) returns (n: nat)
    requires Follow(schedule, run) && Inv(run(0))
    ensures i <= n && SettledAt(run, n)
    decreases Work(run(i))
  {
    if j: nat :| i <= j && run(j + 1) != run(j) {
      WorkFalls(schedule, run, i, j);
      FollowLowers(schedule, run, j);
      n := Settles(schedule, run, j + 1);
    } else {
      n := i;
      forall j: nat | i <= j ensures run(j) == run(i) {
        StaysUntilItMoves(run, i, j);
      }
    }
  }

  lemma NobodyMoves(schedule: nat -> Action, run: nat -> Ring, t: Thread, n: nat)
    requires SettledAt(run, n)
    ensures !MovesAfter(schedule, run, t, n)
  {
  }

  lemma {:induction false} FollowReaches(schedule: nat -> Action, run: nat -> Ring, u: Setup, i: nat)
    requires Follow(schedule, run) && Reachable(run(0), u)
    ensures Reachable(run(i), u)
  {
    if i > 0 {
      FollowReaches(schedule, run, u, i - 1);
      ReachesNext(schedule, run, u, i - 1);
    }
  }

  lemma ReachesNext(schedule: nat -> Action, run: nat -> Ring, u: Setup, i: nat)
    requires Follow(schedule, run) && Reachable(run(i), u)
    ensures Reachable(run(i + 1), u)
  {
    assert FollowsAt(schedule, run, i);
    LeadsToStep(Initial(u), run(i), schedule(i));
  }

  /** In every fair interleaving in which no new write begins, everyone gets through:
      all that was written has gone out or been refused, and nothing changes any more. */
  lemma FairRunsEnd(schedule: nat -> Action, run: nat -> Ring, u: Setup) returns (n: nat)
    requires Reachable(run(0), u) && u.frameNum > 0 && u.flushers > 0
    requires Follow(schedule, run) && Fair(schedule, run)
    ensures Reachable(run(n), u) && Quiet(run(n)) && SettledAt(run, n)
    ensures forall k :: 0 <= k < run(n).written ==> WentOut(run(n), k) || WasRefused(run(n), k)
  {
    ReachableInv(run(0), u);
    n := Settles(schedule, run, 0);
    FollowKeepsInv(schedule, run, n);
    if !Quiet(run(n)) {
      var a := SomeoneCanMove(run(n));
      assert CanMoveFrom(run, ThreadOf(a), n);
      NobodyMoves(schedule, run, ThreadOf(a), n);
    }
    FollowReaches(schedule, run, u, n);
    QuietMeansAllDone(run(n), u);
  }
}
