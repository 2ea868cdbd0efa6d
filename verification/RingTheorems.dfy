/** What the transmit ring promises over every run of one producer, any number of
    flushers and the kernel. */
module RingTheorems {
  import opened TxRing
  import opened RingSafety

  // ---------- every written frame is claimed exactly once ----------

  lemma {:induction false} ClaimsInOrder(s: Ring, c: nat, d: nat)
    requires ClaimsOk(s.claims, s.claimed) && c < d <= |s.claims|
    ensures s.claims[c].base + s.claims[c].count <= ClaimStart(s.claims, d)
    decreases d
  {
    if c < d - 1 {
      ClaimsInOrder(s, c, d - 1);
      assert Follows(s.claims, d - 1);
    }
  }

  lemma ClaimIsUnique(s: Ring, c: nat, d: nat, k: nat)
    requires ClaimsOk(s.claims, s.claimed) && InClaim(s, c, k) && InClaim(s, d, k)
    ensures c == d
  {
    assert Follows(s.claims, c) && Follows(s.claims, d);
    if c < d {
      ClaimsInOrder(s, c, d);
    } else if d < c {
      ClaimsInOrder(s, d, c);
    }
  }

  ghost predicate InSomeClaim(s: Ring, k: nat) {
    exists c: nat :: InClaim(s, c, k)
  }

  lemma InSomeClaimIff(s: Ring, k: nat)
    requires Inv(s)
    ensures InSomeClaim(s, k) <==> k < s.claimed
  {
    if k < s.claimed {
      assert FrameOk(s, k);
      assert InClaim(s, s.frames[k].claim, k);
    }
    if InSomeClaim(s, k) {
      var c: nat :| InClaim(s, c, k);
      ClaimsInOrder(s, c, |s.claims|);
    }
  }

  /** Flusher `f`, at work on claim `c`, holds the claim's own first slot, and its
      loop is at the slot of the claim's next frame. */
  predicate OwnSlots(s: Ring, f: nat)
    requires f < |s.flushers|
  {
    var fl := s.flushers[f];
    var c := Job(fl);
    c >= 0 && s.n > 0 ==>
      && c < |s.claims| && s.claims[c].who == f
      && (!fl.FReleasing? ==> fl.index == s.claims[c].base % s.n)
      && (!fl.FSending? ==>
            0 <= fl.left <= s.claims[c].count && fl.t == (s.claims[c].base + s.claims[c].count - fl.left) % s.n)
  }

  lemma WorkingOwnSlots(s: Ring, f: nat)
    requires Inv(s) && f < |s.flushers|
    ensures OwnSlots(s, f)
  {
    assert FlusherOk(s, f);
    var c := Job(s.flushers[f]);
    if c >= 0 {
      SlotIsMod(s.claims[c].base, s.n);
      if !s.flushers[f].FSending? {
        SlotIsMod(s.claims[c].base + s.claims[c].count - s.flushers[f].left, s.n);
      }
    }
  }

  /** The flushes claim consecutive ranges in the order of writing: together they
      claim exactly the first `claimed` frames, each in one claim, and each flusher
      at work goes round the slots of its own claim. */
  lemma ClaimedExactlyOnce(s: Ring, u: Setup)
    requires Reachable(s, u) && u.frameNum > 0
    ensures s.claimed <= s.written
    ensures forall c :: 0 <= c < |s.claims| ==> Follows(s.claims, c)
    ensures forall k: nat :: InSomeClaim(s, k) <==> k < s.claimed
    ensures forall k: nat, c: nat, d: nat :: InClaim(s, c, k) && InClaim(s, d, k) ==> c == d
    ensures forall f :: 0 <= f < |s.flushers| ==> OwnSlots(s, f)
  {
    ReachableInv(s, u);
    forall k: nat ensures InSomeClaim(s, k) <==> k < s.claimed {
      InSomeClaimIff(s, k);
    }
    forall k: nat, c: nat, d: nat | InClaim(s, c, k) && InClaim(s, d, k) ensures c == d {
      ClaimIsUnique(s, c, d, k);
    }
    forall f | 0 <= f < |s.flushers| ensures OwnSlots(s, f) {
      WorkingOwnSlots(s, f);
    }
  }

  /** No written frame is forgotten: the count is that of the unclaimed frames, and
      while there are any, the slot of the first one is published, or its
      publication is the producer's next step, or one flusher is about to claim. */
  lemma NothingForgotten(s: Ring, u: Setup)
    requires Reachable(s, u) && u.frameNum > 0
    ensures s.txWritten == s.written - s.claimed
    ensures s.txWritten > 0 ==>
              var first := s.claimed % u.frameNum;
              || s.txWrittenIndex == first
              || s.producer == PCounted(first)
              || (s.taker.Some? && s.taker.value < |s.flushers| && s.flushers[s.taker.value] == FTaken(first))
    ensures forall f, g :: 0 <= f < |s.flushers| && 0 <= g < |s.flushers| ==>
              s.flushers[f].FTaken? && s.flushers[g].FTaken? ==> f == g
  {
    ReachableInv(s, u);
    SlotIsMod(s.claimed, s.n);
    if s.taker.Some? {
      assert FlusherOk(s, s.taker.value);
    }
    forall f, g | 0 <= f < |s.flushers| && 0 <= g < |s.flushers| && s.flushers[f].FTaken? && s.flushers[g].FTaken?
      ensures f == g
    {
      assert FlusherOk(s, f) && FlusherOk(s, g);
    }
  }

  // ---------- no slot is reused too early ----------

  predicate Live(s: Ring, k: nat) {
    k < |s.frames| && s.frames[k].phase != Released
  }

  /** Frames that are not yet released sit in different slots, with their flags
      taken and their bytes as written. */
  lemma LiveSlotsDistinct(s: Ring, u: Setup, j: nat, k: nat)
    requires Reachable(s, u) && u.frameNum > 0
    requires Live(s, j) && Live(s, k) && j != k
    ensures Slot(j, s.n) != Slot(k, s.n)
    ensures Is(s.mb, Slot(k, s.n), true)
    ensures k < s.written ==> Is(s.data, Slot(k, s.n), s.frames[k].payload)
  {
    ReachableInv(s, u);
    assert FrameOk(s, j) && FrameOk(s, k);
  }

  /** The producer gets a slot only when every earlier frame of that slot has been
      completed by the kernel and released. */
  lemma NoEarlyReuse(s: Ring, u: Setup, k: nat)
    requires Reachable(s, u) && u.frameNum > 0
    requires s.producer.PReady? && TakeFlag(s).producer.PHeld?
    requires k < |s.frames| && Slot(k, s.n) == s.producer.i
    ensures s.frames[k].phase == Released && (WentOut(s, k) || WasRefused(s, k))
  {
    ReachableInv(s, u);
    assert FrameOk(s, k);
    CompletedOnce(s, k);
  }

  /** The frame in the slot that the producer wants, if it is not free. */
  lemma HeldByFlusher(s: Ring)
    requires Inv(s) && (s.producer.PReady? || s.producer.PClaimed?) && s.mb[s.producer.i]
    ensures |s.frames| >= s.n && Live(s, |s.frames| - s.n)
    ensures var c := s.frames[|s.frames| - s.n].claim;
            && InClaim(s, c, |s.frames| - s.n)
            && s.claims[c].who < |s.flushers|
            && Working(s.flushers[s.claims[c].who], c)
  {
    var i, a := s.producer.i, |s.frames|;
    assert SlotOk(s, i);
    var k := s.owner[i];
    assert FrameOk(s, k);
    SlotApart(k, a, s.n);
    Capacity(s);
    assert k == a - s.n;
  }

  predicate AtRest(fl: Flusher) {
    fl.FIdle? || fl.FLoaded?
  }

  predicate AllAtRest(s: Ring) {
    forall f :: 0 <= f < |s.flushers| ==> AtRest(s.flushers[f])
  }

  /** With no flusher at work the slot the producer wants is free. */
  lemma WantedSlotIsFree(s: Ring)
    requires Inv(s) && AllAtRest(s) && (s.producer.PClaimed? || s.producer.PReady?)
    ensures Is(s.mb, s.producer.i, false) && s.producer.i < |s.status| && !Busy(s.status[s.producer.i])
  {
    assert SlotOk(s, s.producer.i);
    if s.mb[s.producer.i] {
      HeldByFlusher(s);
    }
  }

  /** The producer never waits for a frame that nobody is flushing: the frame in
      the slot it wants is in the claim of a flusher at work. */
  lemma ProducerWaitsForFlusher(s: Ring, u: Setup)
    requires Reachable(s, u) && u.frameNum > 0
    requires s.producer.PReady? && Is(s.mb, s.producer.i, true)
    ensures |s.frames| >= s.n && Live(s, |s.frames| - s.n)
    ensures var c := s.frames[|s.frames| - s.n].claim;
            && InClaim(s, c, |s.frames| - s.n)
            && s.claims[c].who < |s.flushers|
            && Working(s.flushers[s.claims[c].who], c)
  {
    ReachableInv(s, u);
    HeldByFlusher(s);
  }

  /** The producer waits for the kernel exactly while the frame a ring before is asked
      for, and for the flag exactly while that frame is not released. */
  lemma ProducerWaitsExactly(s: Ring, u: Setup)
    requires Reachable(s, u) && u.frameNum > 0
    ensures s.producer.PClaimed? ==>
              (PollSlot(s) == s <==> 0 < s.n <= |s.frames| && s.frames[|s.frames| - s.n].phase == Requested)
    ensures s.producer.PReady? ==> (TakeFlag(s) == s <==> 0 < s.n <= |s.frames| && Live(s, |s.frames| - s.n))
  {
    ReachableInv(s, u);
    if s.producer.PClaimed? || s.producer.PReady? {
      var i := s.producer.i;
      if |s.frames| >= s.n {
        assert FrameOk(s, |s.frames| - s.n);
        assert Slot(|s.frames| - s.n, s.n) == i;
      }
      if Busy(s.status[i]) {
        BusyFrame(s, i);
        WantedIsOneBefore(s);
      }
      if s.mb[i] {
        HeldByFlusher(s);
      }
    }
  }

  lemma WantedIsOneBefore(s: Ring)
    requires Inv(s) && (s.producer.PReady? || s.producer.PClaimed?) && Busy(s.status[s.producer.i])
    ensures s.owner[s.producer.i] == |s.frames| - s.n
  {
    BusyFrame(s, s.producer.i);
    SlotApart(s.owner[s.producer.i], |s.frames|, s.n);
  }

  /** A flusher in its send call waits only for the kernel. */
  lemma SendWaitsForKernel(s: Ring, u: Setup, f: nat)
    requires Reachable(s, u) && u.frameNum > 0
    requires f < |s.flushers| && s.flushers[f].FSending? && !SendDone(s, s.flushers[f].c)
    ensures exists k: nat :: InClaim(s, s.flushers[f].c, k) && Slot(k, s.n) < |s.status| && Busy(s.status[Slot(k, s.n)])
  {
    ReachableInv(s, u);
    assert FlusherOk(s, f);
    var k :| 0 <= k < |s.frames| && InClaim(s, s.flushers[f].c, k) && s.frames[k].phase == Requested;
    assert FrameOk(s, k);
  }

  /** Any ring's length of consecutive frames uses every slot. */
  lemma {:induction false} SlotOnto(a: nat, n: nat, i: nat) returns (k: nat)
    requires i < n
    ensures a <= k < a + n && Slot(k, n) == i
  {
    if a == 0 {
      k := i;
    } else {
      k := SlotOnto(a - 1, n, i);
      if k < a {
        k := k + n;
      }
    }
  }

  predicate AllWaiting(s: Ring)
    requires Shaped(s)
  {
    forall i :: 0 <= i < s.n ==>
      s.mb[i] && s.owner[i] < |s.frames| && s.frames[s.owner[i]].phase == Written
  }

  lemma FullSlots(s: Ring)
    requires Inv(s) && s.txWritten == s.n
    ensures AllWaiting(s)
  {
    forall i | 0 <= i < s.n
      ensures s.mb[i] && s.owner[i] < |s.frames| && s.frames[s.owner[i]].phase == Written
    {
      var k := SlotOnto(s.claimed, s.n, i);
      assert FrameOk(s, k);
    }
  }

  lemma WaitingSlots(s: Ring)
    requires Inv(s) && AllWaiting(s)
    ensures s.txWritten >= s.n
  {
    var i := Slot(s.written, s.n);
    assert SlotOk(s, i);
    assert FrameOk(s, s.owner[i]);
    SlotApart(s.owner[i], s.written, s.n);
  }

  /** "Full" is reported exactly when every slot holds a frame that no flush has claimed. */
  lemma FullMeansAllWaiting(s: Ring, u: Setup)
    requires Reachable(s, u) && u.frameNum > 0
    ensures 0 <= s.txWritten <= s.n && Shaped(s)
    ensures s.txWritten == s.n <==> AllWaiting(s)
  {
    ReachableInv(s, u);
    Capacity(s);
    if s.txWritten == s.n {
      FullSlots(s);
    }
    if AllWaiting(s) {
      WaitingSlots(s);
    }
  }

  // ---------- what the producer wrote ----------

  /** The payloads of the fills that took effect in the first `i` actions. */
  function Fills(actions: seq<Action>, trace: seq<Ring>, i: nat): seq<Payload>
    requires i <= |actions| < |trace|
  {
    if i == 0 then []
    else
      Fills(actions, trace, i - 1) +
      if actions[i - 1].PFill? && trace[i - 1].producer.PHeld? then [actions[i - 1].payload] else []
  }

  predicate HoldsFills(s: Ring, fills: seq<Payload>) {
    && |fills| == (if s.producer.PFilled? then s.written + 1 else s.written) <= |s.frames|
    && (forall k :: 0 <= k < |fills| ==> s.frames[k].payload == fills[k])
  }

  lemma StepKeepsPayloads(s: Ring, a: Action)
    requires !a.PFill?
    ensures var s' := Step(s, a);
            |s'.frames| >= |s.frames| && forall k :: 0 <= k < |s.frames| ==> s'.frames[k].payload == s.frames[k].payload
  {
  }

  lemma StepHoldsFills(s: Ring, a: Action, fills: seq<Payload>)
    requires HoldsFills(s, fills) && (s.producer.PHeld? ==> |s.frames| > s.written)
    ensures HoldsFills(Step(s, a), fills + if a.PFill? && s.producer.PHeld? then [a.payload] else [])
  {
    if !a.PFill? {
      assert fills + [] == fills;
      StepKeepsPayloads(s, a);
    }
  }

  lemma NextHoldsFills(u: Setup, actions: seq<Action>, trace: seq<Ring>, i: nat, fills: seq<Payload>)
    requires u.frameNum > 0 && IsTrace(actions, trace) && trace[0] == Initial(u) && i < |actions|
    requires HoldsFills(trace[i], fills)
    ensures HoldsFills(trace[i + 1],
                       fills + if actions[i].PFill? && trace[i].producer.PHeld? then [actions[i].payload] else [])
  {
    InitialInv(u);
    TraceKeepsInv(actions, trace, i);
    TraceStep(actions, trace, i);
    StepHoldsFills(trace[i], actions[i], fills);
  }

  /** Over a whole run, frame k carries the payload of the k-th fill, whatever
      happened since. */
  lemma {:induction false} PayloadIsFixed(u: Setup, actions: seq<Action>, trace: seq<Ring>, i: nat)
    requires u.frameNum > 0 && IsTrace(actions, trace) && trace[0] == Initial(u) && i <= |actions|
    ensures HoldsFills(trace[i], Fills(actions, trace, i))
  {
    if i > 0 {
      PayloadIsFixed(u, actions, trace, i - 1);
      NextHoldsFills(u, actions, trace, i - 1, Fills(actions, trace, i - 1));
    }
  }

  // ---------- what the kernel did ----------

  ghost predicate WentOut(s: Ring, k: nat) {
    exists j :: 0 <= j < |s.log| && s.log[j].frame == k && s.log[j].ok
  }

  ghost predicate WasRefused(s: Ring, k: nat) {
    exists j :: 0 <= j < |s.log| && s.log[j].frame == k && !s.log[j].ok
  }

  lemma CompletedOnce(s: Ring, k: nat)
    requires Inv(s) && k < |s.frames|
    ensures WentOut(s, k) <==> Through(s.frames[k].phase) && s.frames[k].ok
    ensures WasRefused(s, k) <==> Through(s.frames[k].phase) && !s.frames[k].ok
  {
    assert FrameOk(s, k);
    if Through(s.frames[k].phase) {
      assert s.log[s.frames[k].doneAt].frame == k;
    }
  }

  /** The kernel completes no frame twice, each with the bytes written for it; a
      frame it is through with either went out or was refused, never both; and a
      frame is given back to the producer only after its completion. */
  lemma CompletedAtMostOnceAsWritten(s: Ring, u: Setup)
    requires Reachable(s, u) && u.frameNum > 0
    ensures forall i, j :: 0 <= i < j < |s.log| ==> s.log[i].frame != s.log[j].frame
    ensures forall j :: 0 <= j < |s.log| ==>
              s.log[j].frame < |s.frames| && s.log[j].payload == s.frames[s.log[j].frame].payload
    ensures forall k :: 0 <= k < |s.frames| ==>
              && !(WentOut(s, k) && WasRefused(s, k))
              && (WentOut(s, k) || WasRefused(s, k) <==> Through(s.frames[k].phase))
  {
    ReachableInv(s, u);
    forall k | 0 <= k < |s.frames|
      ensures !(WentOut(s, k) && WasRefused(s, k))
      ensures WentOut(s, k) || WasRefused(s, k) <==> Through(s.frames[k].phase)
    {
      CompletedOnce(s, k);
    }
  }

  // ---------- what a flush returns ----------

  lemma {:induction false} RefusedExactly(s: Ring, a: nat, b: nat, i: int)
    requires b <= |s.frames|
    ensures i in Refused(true, s.frames, a, b, s.n) <==> exists k :: a <= k < b && Slot(k, s.n) == i && !s.frames[k].ok
    decreases b
  {
    if a < b {
      RefusedExactly(s, a, b - 1, i);
      var last := if s.frames[b - 1].ok then [] else [Slot(b - 1, s.n)];
      assert i in Refused(true, s.frames, a, b, s.n) <==> i in Refused(true, s.frames, a, b - 1, s.n) || i in last;
    }
  }

  lemma {:induction false} NothingReported(s: Ring, a: nat, b: nat)
    requires b <= |s.frames|
    ensures Refused(false, s.frames, a, b, s.n) == []
    decreases b
  {
    if a < b {
      NothingReported(s, a, b - 1);
    }
  }

  /** The frame of claim `c` in slot `i` was refused. */
  ghost predicate RefusedIn(s: Ring, c: nat, i: int) {
    exists k: nat :: InClaim(s, c, k) && Slot(k, s.n) == i && WasRefused(s, k)
  }

  lemma RefusedInIff(s: Ring, c: nat, i: int)
    requires Inv(s) && c in s.results
    ensures RefusedIn(s, c, i) <==>
            exists k :: s.claims[c].base <= k < s.claims[c].base + s.claims[c].count && k < |s.frames| &&
                        Slot(k, s.n) == i && !s.frames[k].ok
  {
    assert ResultOk(s, c);
    if k: nat :| InClaim(s, c, k) && Slot(k, s.n) == i && WasRefused(s, k) {
      CompletedOnce(s, k);
    }
    if k :| s.claims[c].base <= k < s.claims[c].base + s.claims[c].count && k < |s.frames| &&
            Slot(k, s.n) == i && !s.frames[k].ok {
      CompletedOnce(s, k);
      assert InClaim(s, c, k);
    }
  }

  lemma ErrsExactly(s: Ring, c: nat, i: int)
    requires Inv(s) && c in s.results && s.lossDisabled
    ensures i in s.results[c].errs <==> RefusedIn(s, c, i)
  {
    assert ResultOk(s, c);
    RefusedExactly(s, s.claims[c].base, s.claims[c].base + s.claims[c].count, i);
    RefusedInIff(s, c, i);
  }

  /** In every interleaving, a claim is at work or its flush has returned, and what
      it returned is an account of its own claim: each frame went well or is in the
      error list, the error list is the slots of the frames that were refused, and
      it is empty where the kernel does not report refusals. */
  lemma FlushAccountsForClaim(s: Ring, u: Setup, c: nat)
    requires Reachable(s, u) && u.frameNum > 0 && c < |s.claims|
    ensures c in s.results <==> !(s.claims[c].who < |s.flushers| && Working(s.flushers[s.claims[c].who], c))
    ensures c in s.results ==>
              && s.results[c].count + |s.results[c].errs| == s.claims[c].count
              && (u.lossDisabled ==> forall i :: i in s.results[c].errs <==> RefusedIn(s, c, i))
              && (!u.lossDisabled ==> s.results[c].errs == [])
              && (forall k: nat :: InClaim(s, c, k) ==> !Live(s, k))
  {
    ReachableInv(s, u);
    assert ResultOk(s, c);
    if c in s.results {
      if u.lossDisabled {
        forall i ensures i in s.results[c].errs <==> RefusedIn(s, c, i) {
          ErrsExactly(s, c, i);
        }
      } else {
        NothingReported(s, s.claims[c].base, s.claims[c].base + s.claims[c].count);
      }
    }
  }

  /** What a flush has returned is never revised. */
  lemma ResultIsFinal(s: Ring, u: Setup, a: Action, c: nat)
    requires Reachable(s, u) && u.frameNum > 0 && c in s.results
    ensures c in Step(s, a).results && Step(s, a).results[c] == s.results[c]
  {
    ReachableInv(s, u);
    assert ResultOk(s, c);
    if a.FRelease? && a.f < |s.flushers| {
      assert FlusherOk(s, a.f);
    }
  }

  // ---------- when everyone is through ----------

  predicate Quiet(s: Ring) {
    s.producer.PIdle? && s.txWritten == 0 && AllAtRest(s)
  }

  /** What the flushes of the first `c` claims returned, all together. */
  function Total(s: Ring, c: nat): int
    requires forall d :: 0 <= d < c ==> d in s.results
  {
    if c == 0 then 0 else Total(s, c - 1) + s.results[c - 1].count + |s.results[c - 1].errs|
  }

  lemma {:induction false} TotalIsClaimed(s: Ring, c: nat)
    requires Inv(s) && c <= |s.claims| && forall d :: 0 <= d < |s.claims| ==> d in s.results
    ensures Total(s, c) == ClaimStart(s.claims, c)
  {
    if c > 0 {
      TotalIsClaimed(s, c - 1);
      assert Follows(s.claims, c - 1) && ResultOk(s, c - 1);
    }
  }

  lemma QuietFrame(s: Ring, k: nat)
    requires Inv(s) && Quiet(s) && k < |s.frames|
    ensures s.frames[k].phase == Released && s.frames[k].doneAt < |s.log|
    ensures s.log[s.frames[k].doneAt] == Completion(k, s.frames[k].payload, s.frames[k].ok)
  {
    assert FrameOk(s, k);
  }

  /** When everyone is through, every written frame has been completed exactly once
      with its bytes, has gone out exactly when that completion was a success, and
      is accounted for by one flush; and all slots are free again. */
  lemma QuietMeansAllDone(s: Ring, u: Setup)
    requires Reachable(s, u) && u.frameNum > 0 && Quiet(s)
    ensures |s.frames| == s.written
    ensures forall k :: 0 <= k < s.written ==>
              var fr := s.frames[k];
              && fr.doneAt < |s.log| && s.log[fr.doneAt] == Completion(k, fr.payload, fr.ok)
              && (WentOut(s, k) <==> fr.ok) && (WasRefused(s, k) <==> !fr.ok)
    ensures forall j :: 0 <= j < |s.log| ==> s.log[j].frame < s.written && s.frames[s.log[j].frame].doneAt == j
    ensures forall c :: 0 <= c < |s.claims| ==> c in s.results
    ensures Total(s, |s.claims|) == s.written
    ensures forall i :: 0 <= i < |s.mb| ==> !s.mb[i]
  {
    ReachableInv(s, u);
    forall k | 0 <= k < |s.frames|
      ensures s.frames[k].phase == Released && s.frames[k].doneAt < |s.log|
      ensures s.log[s.frames[k].doneAt] == Completion(k, s.frames[k].payload, s.frames[k].ok)
      ensures (WentOut(s, k) <==> s.frames[k].ok) && (WasRefused(s, k) <==> !s.frames[k].ok)
    {
      QuietFrame(s, k);
      CompletedOnce(s, k);
    }
    forall c | 0 <= c < |s.claims| ensures c in s.results {
      assert ResultOk(s, c);
    }
    TotalIsClaimed(s, |s.claims|);
    forall i | 0 <= i < s.n ensures !s.mb[i] {
      assert SlotOk(s, i);
    }
  }
}
