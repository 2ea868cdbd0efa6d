/** What every interleaving of the transmit ring keeps. */
module RingSafety {
  import opened Wire
  import opened TxRing

  /** The slot of frame number `k`: frames go round the ring. */
  function Slot(k: nat, n: nat): (i: nat)
    ensures n > 0 ==> i < n
    decreases k
  {
    if n == 0 || k < n then k else Slot(k - n, n)
  }

  lemma {:induction false} SlotNext(k: nat, n: nat)
    requires n > 0
    ensures Slot(k + 1, n) == NextSlot(Slot(k, n), n)
    decreases k
  {
    if k >= n {
      SlotNext(k - n, n);
    }
  }

  lemma {:induction false} SlotIsMod(k: nat, n: nat)
    requires n > 0
    ensures Slot(k, n) == k % n
    decreases k
  {
    if k >= n {
      SlotIsMod(k - n, n);
      var q, r := (k - n) / n, (k - n) % n;
      assert k == n * (q + 1) + r;
      ModUnique(k, n, q + 1, r);
    } else {
      ModUnique(k, n, 0, k);
    }
  }

  /** Two frames in one slot are at least a whole ring apart. */
  lemma {:induction false} SlotApart(j: nat, k: nat, n: nat)
    requires n > 0 && j < k && Slot(j, n) == Slot(k, n)
    ensures j + n <= k
    decreases k
  {
    if j >= n {
      SlotApart(j - n, k - n, n);
    }
  }

  // ---------- the invariant ----------

  predicate Shaped(s: Ring) {
    s.n > 0 && |s.mb| == |s.status| == |s.data| == |s.owner| == s.n
  }

  predicate Counts(s: Ring) {
    s.claimed <= s.written <= |s.frames| <= s.written + 1 && s.txWritten == s.written - s.claimed
  }

  predicate ProducerOk(s: Ring)
    requires s.n > 0
  {
    match s.producer
    case PIdle => |s.frames| == s.written && s.txIndex == Slot(s.written, s.n)
    case PChecked => |s.frames| == s.written && s.txIndex == Slot(s.written, s.n) && s.txWritten < s.n
    case PLoaded(i) => |s.frames| == s.written && i == s.txIndex == Slot(s.written, s.n) && s.txWritten < s.n
    case PClaimed(i) =>
      |s.frames| == s.written && i == Slot(s.written, s.n) && s.txIndex == Slot(s.written + 1, s.n) && s.txWritten < s.n
    case PReady(i) =>
      |s.frames| == s.written && i == Slot(s.written, s.n) && s.txIndex == Slot(s.written + 1, s.n) && s.txWritten < s.n
    case PHeld(i) =>
      |s.frames| == s.written + 1 && i == Slot(s.written, s.n) && s.txIndex == Slot(s.written + 1, s.n)
    case PFilled(i) =>
      |s.frames| == s.written + 1 && i == Slot(s.written, s.n) && s.txIndex == Slot(s.written + 1, s.n)
    case PCounted(_) => |s.frames| == s.written && s.txIndex == Slot(s.written, s.n)
  }

  /** The first unclaimed slot is known in exactly one place: published, about to
      be published, or in the hands of one flusher. */
  predicate TokenOk(s: Ring)
    requires s.n > 0
  {
    && (s.txWrittenIndex != -1 ==>
          s.txWrittenIndex == Slot(s.claimed, s.n) && s.txWritten >= 1 && s.taker == None && !s.producer.PCounted?)
    && (s.producer.PCounted? ==> s.producer.i == Slot(s.claimed, s.n) && s.txWritten >= 1 && s.taker == None)
    && (s.taker.Some? ==>
          s.taker.value < |s.flushers| && s.flushers[s.taker.value].FTaken? && s.txWritten >= 1)
    && (s.txWritten > 0 ==> s.txWrittenIndex != -1 || s.producer.PCounted? || s.taker.Some?)
  }

  /** A frame stays in a ring's length of the newest one until it is released. */
  predicate Window(frames: seq<Frame>, n: nat) {
    forall k :: 0 <= k < |frames| - n ==> frames[k].phase == Released
  }

  predicate Through(p: Phase) {
    p == Completed || p == Released
  }

  /** The claim a flusher works on, if any. */
  function Job(fl: Flusher): int {
    if fl.FMarking? || fl.FSending? || fl.FReleasing? then fl.c else -1
  }

  predicate Working(fl: Flusher, c: nat) {
    Job(fl) == c
  }

  predicate FrameOk(s: Ring, k: nat)
    requires Shaped(s) && k < |s.frames|
  {
    var fr, i := s.frames[k], Slot(k, s.n);
    && (fr.phase == Held <==> k >= s.written)
    && (fr.phase == Written <==> s.claimed <= k < s.written)
    && (k < s.claimed ==>
          InClaim(s, fr.claim, k) &&
          (fr.phase != Released ==>
             s.claims[fr.claim].who < |s.flushers| && Working(s.flushers[s.claims[fr.claim].who], fr.claim)))
    && (fr.phase != Released ==>
          && s.mb[i] && s.owner[i] == k
          && (s.data[i] == fr.payload || (s.producer.PHeld? && k == s.written))
          && (fr.phase == Requested <==> Busy(s.status[i]))
          && (fr.phase == Completed ==> s.status[i] == if fr.ok then Available else WrongFormat))
    && (Through(fr.phase) ==> fr.doneAt < |s.log| && s.log[fr.doneAt].frame == k)
  }

  predicate SlotOk(s: Ring, i: nat)
    requires Shaped(s) && i < s.n
  {
    if s.mb[i] then
      s.owner[i] < |s.frames| && Slot(s.owner[i], s.n) == i && s.frames[s.owner[i]].phase != Released
    else !Busy(s.status[i])
  }

  predicate Active(s: Ring, f: nat, c: nat) {
    && c < |s.claims| && s.claims[c].who == f
    && s.claims[c].base + s.claims[c].count <= s.claimed
    && (forall k :: 0 <= k < |s.frames| && InClaim(s, c, k) ==> s.frames[k].claim == c)
  }

  /** The slots of the frames from `a` to `b` that the kernel refused, where it says so. */
  function Refused(reports: bool, frames: seq<Frame>, a: nat, b: int, n: nat): seq<int>
    requires b <= |frames|
    decreases b - a
  {
    if b <= a then []
    else Refused(reports, frames, a, b - 1, n) + if reports && !frames[b - 1].ok then [Slot(b - 1, n)] else []
  }

  lemma {:induction false} RefusedSame(reports: bool, frames: seq<Frame>, frames': seq<Frame>, a: nat, b: int, n: nat)
    requires b <= |frames| && b <= |frames'|
    requires forall k :: a <= k < b ==> frames'[k].ok == frames[k].ok
    ensures Refused(reports, frames', a, b, n) == Refused(reports, frames, a, b, n)
    decreases b - a
  {
    if b > a {
      RefusedSame(reports, frames, frames', a, b - 1, n);
    }
  }

  /** What a flush says of the frames from `a` to `b`: each went well or is an error. */
  predicate Accounts(s: Ring, flushed: nat, errs: seq<int>, a: nat, b: int) {
    b <= |s.frames| && flushed + |errs| == b - a && errs == Refused(s.lossDisabled, s.frames, a, b, s.n)
  }

  predicate FlusherOk(s: Ring, f: nat)
    requires s.n > 0 && s.claimed <= |s.frames| && f < |s.flushers|
  {
    match s.flushers[f]
    case FIdle => true
    case FLoaded(index) => index != -1
    case FTaken(index) => s.taker == Some(f) && index == Slot(s.claimed, s.n)
    case FMarking(c, index, t, left) =>
      && Active(s, f, c) && 0 <= left <= s.claims[c].count
      && index == Slot(s.claims[c].base, s.n)
      && var at := s.claims[c].base + s.claims[c].count - left;
      && t == Slot(at, s.n)
      && (forall k :: 0 <= k < |s.frames| && InClaim(s, c, k) ==>
            if k < at then s.frames[k].phase == Requested || s.frames[k].phase == Completed
            else s.frames[k].phase == Claimed)
    case FSending(c, index) =>
      && Active(s, f, c)
      && index == Slot(s.claims[c].base, s.n)
      && (forall k :: 0 <= k < |s.frames| && InClaim(s, c, k) ==>
            s.frames[k].phase == Requested || s.frames[k].phase == Completed)
    case FReleasing(c, t, left, flushed, errs) =>
      && Active(s, f, c) && 0 <= left <= s.claims[c].count
      && var at := s.claims[c].base + s.claims[c].count - left;
      && t == Slot(at, s.n)
      && Accounts(s, flushed, errs, s.claims[c].base, at)
      && (forall k :: 0 <= k < |s.frames| && InClaim(s, c, k) ==>
            s.frames[k].phase == if k < at then Released else Completed)
  }

  function ClaimStart(claims: seq<Claim>, c: nat): int
    requires c <= |claims|
  {
    if c == 0 then 0 else claims[c - 1].base + claims[c - 1].count
  }

  /** Claim `c` is non-empty and begins where the one before it ends. */
  predicate Follows(claims: seq<Claim>, c: nat)
    requires c < |claims|
  {
    claims[c].count >= 1 && claims[c].base == ClaimStart(claims, c)
  }

  predicate ClaimsOk(claims: seq<Claim>, claimed: nat) {
    && (forall c :: 0 <= c < |claims| ==> Follows(claims, c))
    && ClaimStart(claims, |claims|) == claimed
  }

  lemma ClaimsExtend(claims: seq<Claim>, claimed: nat, c: Claim)
    requires ClaimsOk(claims, claimed) && c.base == claimed && c.count >= 1
    ensures ClaimsOk(claims + [c], claimed + c.count)
  {
    var more := claims + [c];
    forall d | 0 <= d < |more| ensures Follows(more, d) {
      assert d < |claims| ==> Follows(claims, d);
    }
  }

  /** Each completion is that of one frame, with the payload written for it. */
  predicate LogOk(s: Ring) {
    forall j :: 0 <= j < |s.log| ==>
      var k := s.log[j].frame;
      && k < |s.frames| && Through(s.frames[k].phase)
      && s.frames[k].doneAt == j && s.frames[k].payload == s.log[j].payload && s.frames[k].ok == s.log[j].ok
  }

  /** A claim is at work, or its flush has returned an account of all of it. */
  predicate ResultOk(s: Ring, c: nat)
    requires c < |s.claims|
  {
    var cl := s.claims[c];
    if c in s.results then
      && cl.base + cl.count <= s.claimed <= |s.frames|
      && Accounts(s, s.results[c].count, s.results[c].errs, cl.base, cl.base + cl.count)
      && (forall k :: cl.base <= k < cl.base + cl.count ==> s.frames[k].phase == Released)
      && (cl.who < |s.flushers| ==> !Working(s.flushers[cl.who], c))
    else cl.who < |s.flushers| && Working(s.flushers[cl.who], c)
  }

  predicate ResultsOk(s: Ring) {
    && (forall c :: c in s.results ==> c < |s.claims|)
    && (forall c :: 0 <= c < |s.claims| ==> ResultOk(s, c))
  }

  predicate Core(s: Ring) {
    Shaped(s) && Counts(s) && ProducerOk(s) && TokenOk(s) && Window(s.frames, s.n) && ClaimsOk(s.claims, s.claimed)
  }

  predicate FramesOk(s: Ring)
    requires Shaped(s)
  {
    forall k :: 0 <= k < |s.frames| ==> FrameOk(s, k)
  }

  predicate SlotsOk(s: Ring)
    requires Shaped(s)
  {
    forall i :: 0 <= i < s.n ==> SlotOk(s, i)
  }

  predicate FlushersOk(s: Ring)
    requires s.n > 0 && s.claimed <= |s.frames|
  {
    forall f :: 0 <= f < |s.flushers| ==> FlusherOk(s, f)
  }

  predicate Inv(s: Ring) {
    Core(s) && FramesOk(s) && SlotsOk(s) && FlushersOk(s) && LogOk(s) && ResultsOk(s)
  }

  lemma InitialInv(u: Setup)
    requires u.frameNum > 0
    ensures Inv(TxRing.Initial(u))
  {
  }

  // ---------- what a step may leave alone ----------

  /** A frame's progress as its own flusher may see it. */
  predicate SameStage(fr: Frame, fr': Frame) {
    (fr'.phase == fr.phase && fr'.ok == fr.ok) || (fr.phase == Requested && fr'.phase == Completed)
  }

  /** A flusher that does not move, whose frames stay in their claim and stage, stays right. */
  lemma FlusherStays(s: Ring, s': Ring, f: nat)
    requires s.n > 0 && s'.n == s.n && s'.lossDisabled == s.lossDisabled
    requires f < |s.flushers| == |s'.flushers| && s'.flushers[f] == s.flushers[f]
    requires s.claims <= s'.claims && s.claimed <= s'.claimed <= |s'.frames|
    requires s.claimed <= |s.frames| <= |s'.frames|
    requires s.flushers[f].FTaken? ==> s'.taker == s.taker && s'.claimed == s.claimed
    requires forall k :: 0 <= k < s.claimed ==>
      s'.frames[k].claim == s.frames[k].claim &&
      (Working(s.flushers[f], s.frames[k].claim) ==> SameStage(s.frames[k], s'.frames[k]))
    requires FlusherOk(s, f)
    ensures FlusherOk(s', f)
  {
    if s.flushers[f].FReleasing? {
      var FReleasing(c, _, left, _, _) := s.flushers[f];
      var base := s.claims[c].base;
      RefusedSame(s.lossDisabled, s.frames, s'.frames, base, base + s.claims[c].count - left, s.n);
    }
  }

  /** A step that leaves released frames alone, and every flusher at its claim, keeps the results right. */
  lemma ResultsStay(s: Ring, s': Ring)
    requires ResultsOk(s)
    requires s'.n == s.n && s'.lossDisabled == s.lossDisabled && s'.claims == s.claims && s'.results == s.results
    requires s.claimed <= |s.frames| <= |s'.frames| && s'.claimed == s.claimed && |s'.flushers| == |s.flushers|
    requires forall f :: 0 <= f < |s.flushers| ==> Job(s'.flushers[f]) == Job(s.flushers[f])
    requires forall k :: 0 <= k < |s.frames| && s.frames[k].phase == Released ==> s'.frames[k] == s.frames[k]
    ensures ResultsOk(s')
  {
    forall c | 0 <= c < |s.claims| ensures ResultOk(s', c) {
      assert ResultOk(s, c);
      if c in s.results {
        var Claim(_, base, count) := s.claims[c];
        RefusedSame(s.lossDisabled, s.frames, s'.frames, base, base + count, s.n);
      }
    }
  }

  /** A frame that nothing touched stays right. */
  lemma FrameStays(s: Ring, s': Ring, k: nat)
    requires Shaped(s) && Shaped(s') && s'.n == s.n
    requires k < |s.frames| && k < |s'.frames| && s'.frames[k] == s.frames[k]
    requires (k >= s'.written <==> k >= s.written) && (k < s'.claimed <==> k < s.claimed)
    requires s.claims <= s'.claims && |s.flushers| == |s'.flushers| && s.log <= s'.log
    requires
      var c := s.frames[k].claim;
      (&& k < s.claimed && s.frames[k].phase != Released && c < |s.claims| && s.claims[c].who < |s.flushers|
       && Working(s.flushers[s.claims[c].who], c)) ==> Working(s'.flushers[s.claims[c].who], c)
    requires s.frames[k].phase != Released ==>
      var i := Slot(k, s.n);
      s'.mb[i] == s.mb[i] && s'.owner[i] == s.owner[i] && s'.data[i] == s.data[i] &&
      Busy(s'.status[i]) == Busy(s.status[i]) && (s.frames[k].phase == Completed ==> s'.status[i] == s.status[i])
    requires s.producer.PHeld? && k == s.written ==> s'.producer.PHeld? && s'.written == s.written
    requires FrameOk(s, k)
    ensures FrameOk(s', k)
  {
  }

  lemma TakeFrames(s: Ring)
    requires Inv(s) && s.producer.PReady? && !s.mb[s.producer.i]
    ensures FramesOk(TakeFlag(s))
  {
    var s' := TakeFlag(s);
    assert SlotOk(s, s.producer.i);
    forall k | 0 <= k < |s'.frames| ensures FrameOk(s', k) {
      if k < |s.frames| {
        assert FrameOk(s, k);
        FrameStays(s, s', k);
      }
    }
  }

  lemma TakeSlots(s: Ring)
    requires Inv(s) && s.producer.PReady? && !s.mb[s.producer.i]
    ensures SlotsOk(TakeFlag(s)) && LogOk(TakeFlag(s))
  {
    var s' := TakeFlag(s);
    forall j | 0 <= j < s.n ensures SlotOk(s', j) {
      assert SlotOk(s, j);
    }
  }

  /** The slot that comes next was given back by the frame a ring's length before. */
  lemma NextSlotIsFree(s: Ring)
    requires Inv(s) && s.producer.PReady? && !s.mb[s.producer.i] && |s.frames| >= s.n
    ensures s.frames[|s.frames| - s.n].phase == Released
  {
    var k := |s.frames| - s.n;
    assert FrameOk(s, k);
    assert Slot(k, s.n) == s.producer.i;
  }

  lemma TakeCore(s: Ring)
    requires Core(s) && s.producer.PReady? && !s.mb[s.producer.i]
    requires |s.frames| >= s.n ==> s.frames[|s.frames| - s.n].phase == Released
    ensures Core(TakeFlag(s))
  {
  }

  lemma TakeKeepsInv(s: Ring)
    requires Inv(s)
    ensures Inv(TakeFlag(s))
  {
    var s' := TakeFlag(s);
    if s.producer.PReady? && !s.mb[s.producer.i] {
      TakeFrames(s);
      TakeSlots(s);
      if |s.frames| >= s.n {
        NextSlotIsFree(s);
      }
      TakeCore(s);
      ResultsStay(s, s');
      forall f | 0 <= f < |s.flushers| ensures FlusherOk(s', f) {
        FlusherStays(s, s', f);
      }
    }
  }

  // ---------- the producer ----------

  /** A step that moves only the producer and the two indices. */
  lemma ProducerMoves(s: Ring, s': Ring)
    requires Inv(s) && Core(s')
    requires s' == s.(producer := s'.producer, txIndex := s'.txIndex, txWrittenIndex := s'.txWrittenIndex)
    requires !s.producer.PHeld?
    ensures Inv(s')
  {
    forall k | 0 <= k < |s'.frames| ensures FrameOk(s', k) {
      assert FrameOk(s, k);
    }
    forall i | 0 <= i < s'.n ensures SlotOk(s', i) {
      assert SlotOk(s, i);
    }
    forall f | 0 <= f < |s'.flushers| ensures FlusherOk(s', f) {
      FlusherStays(s, s', f);
    }
    ResultsStay(s, s');
  }

  /** No more frames are waiting than there are slots. */
  lemma Capacity(s: Ring)
    requires Inv(s)
    ensures 0 <= s.txWritten <= |s.frames| - s.claimed <= s.n
  {
    if s.claimed < |s.frames| {
      assert FrameOk(s, s.claimed);
    }
  }

  lemma IndexMoves(s: Ring, a: Action)
    requires Inv(s) && (a.PCheck? || a.PLoad? || a.PSwap? || a.PPoll? || a.PPublish?)
    ensures Inv(Step(s, a))
  {
    var s' := Step(s, a);
    if s' != s {
      SlotNext(s.written, s.n);
      Capacity(s);
      ProducerMoves(s, s');
    }
  }

  lemma FillFrames(s: Ring, payload: Payload)
    requires Inv(s) && s.producer.PHeld?
    ensures FramesOk(Fill(s, payload))
  {
    var s' := Fill(s, payload);
    assert FrameOk(s, s.written);
    forall k | 0 <= k < |s'.frames| ensures FrameOk(s', k) {
      assert FrameOk(s, k);
      if k != s.written {
        FrameStays(s, s', k);
      }
    }
  }

  lemma FillKeepsInv(s: Ring, payload: Payload)
    requires Inv(s)
    ensures Inv(Fill(s, payload))
  {
    var s' := Fill(s, payload);
    if s.producer.PHeld? {
      assert FrameOk(s, s.written);
      FillFrames(s, payload);
      ResultsStay(s, s');
      forall i | 0 <= i < s'.n ensures SlotOk(s', i) {
        assert SlotOk(s, i);
      }
      forall f | 0 <= f < |s'.flushers| ensures FlusherOk(s', f) {
        FlusherStays(s, s', f);
      }
    }
  }

  lemma CountFrames(s: Ring)
    requires Inv(s) && s.producer.PFilled?
    ensures FramesOk(Count(s))
  {
    var s' := Count(s);
    assert FrameOk(s, s.written);
    forall k | 0 <= k < |s'.frames| ensures FrameOk(s', k) {
      assert FrameOk(s, k);
      if k != s.written {
        FrameStays(s, s', k);
      }
    }
  }

  lemma CountKeepsInv(s: Ring)
    requires Inv(s)
    ensures Inv(Count(s))
  {
    var s' := Count(s);
    if s.producer.PFilled? {
      assert FrameOk(s, s.written);
      CountFrames(s);
      ResultsStay(s, s');
      forall i | 0 <= i < s'.n ensures SlotOk(s', i) {
        assert SlotOk(s, i);
      }
      forall f | 0 <= f < |s'.flushers| ensures FlusherOk(s', f) {
        FlusherStays(s, s', f);
      }
    }
  }

  // ---------- a flusher ----------

  /** A step that moves one flusher and the published index, keeping its claim
      unless all of it is released. */
  lemma FlusherMoves(s: Ring, s': Ring, f: nat)
    requires Inv(s) && Core(s') && f < |s.flushers| == |s'.flushers|
    requires s' == s.(flushers := s.flushers[f := s'.flushers[f]], txWrittenIndex := s'.txWrittenIndex,
                      taker := s'.taker, results := s'.results)
    requires FlusherOk(s', f) && ResultsOk(s')
    requires s'.taker == s.taker || s.taker == None
    requires forall k :: 0 <= k < s.claimed && Working(s.flushers[f], s.frames[k].claim) ==>
      s.frames[k].phase == Released || Working(s'.flushers[f], s.frames[k].claim)
    ensures Inv(s')
  {
    forall k | 0 <= k < |s'.frames| ensures FrameOk(s', k) {
      assert FrameOk(s, k);
      FrameStays(s, s', k);
    }
    forall i | 0 <= i < s'.n ensures SlotOk(s', i) {
      assert SlotOk(s, i);
    }
    forall g | 0 <= g < |s'.flushers| ensures FlusherOk(s', g) {
      assert FlusherOk(s, g);
      if g != f {
        FlusherStays(s, s', g);
      }
    }
  }

  lemma MovedCore(s: Ring, f: nat, fl: Flusher)
    requires Core(s) && f < |s.flushers| && !s.flushers[f].FTaken?
    ensures Core(Moved(s, f, fl))
  {
  }

  lemma LoadKeepsInv(s: Ring, f: nat)
    requires Inv(s) && f < |s.flushers|
    ensures Inv(Load(s, f))
  {
    var s' := Load(s, f);
    if s.flushers[f].FIdle? && s.txWrittenIndex != -1 {
      ResultsStay(s, s');
      FlusherMoves(s, s', f);
    }
  }

  /** A compare-and-swap that meets the value it read takes the published index. */
  lemma SwapCore(s: Ring, f: nat)
    requires Core(s) && f < |s.flushers| && s.flushers[f].FLoaded? && s.flushers[f].index != -1
    ensures var s' := Swap(s, f);
            Core(s') && FlusherOk(s', f) && (s'.taker == s.taker || s.taker == None)
  {
  }

  lemma SwapKeepsInv(s: Ring, f: nat)
    requires Inv(s) && f < |s.flushers|
    ensures Inv(Swap(s, f))
  {
    var s' := Swap(s, f);
    if s.flushers[f].FLoaded? {
      assert FlusherOk(s, f);
      SwapCore(s, f);
      ResultsStay(s, s');
      FlusherMoves(s, s', f);
    }
  }

  /** The second swap: all written frames become one claim of flusher `f`. */
  ghost predicate TakesAll(s: Ring, s': Ring, f: nat) {
    Inv(s) && f < |s.flushers| && s.flushers[f].FTaken? && s' == TakeAll(s, f)
  }

  lemma TakeAllCore(s: Ring, s': Ring, f: nat)
    requires TakesAll(s, s', f)
    ensures Core(s')
  {
    assert FlusherOk(s, f);
    ClaimsExtend(s.claims, s.claimed, Claim(f, s.claimed, s.txWritten));
    forall k | 0 <= k < |s.frames| - s.n ensures s'.frames[k].phase == Released {
      assert FrameOk(s, k);
    }
  }

  lemma TakeAllFrames(s: Ring, s': Ring, f: nat)
    requires TakesAll(s, s', f)
    ensures FramesOk(s')
  {
    assert FlusherOk(s, f);
    forall k | 0 <= k < |s'.frames| ensures FrameOk(s', k) {
      assert FrameOk(s, k);
      if k < s.claimed || k >= s.written {
        FrameStays(s, s', k);
      }
    }
  }

  lemma TakeAllSlots(s: Ring, s': Ring, f: nat)
    requires TakesAll(s, s', f)
    ensures SlotsOk(s') && LogOk(s')
  {
    forall i | 0 <= i < s'.n ensures SlotOk(s', i) {
      assert SlotOk(s, i);
    }
    forall j | 0 <= j < |s.log| ensures Through(s'.frames[s.log[j].frame].phase) {
      assert FrameOk(s, s.log[j].frame);
    }
  }

  lemma TakeAllFlushers(s: Ring, s': Ring, f: nat)
    requires TakesAll(s, s', f)
    ensures FlushersOk(s')
  {
    assert FlusherOk(s, f);
    forall g | 0 <= g < |s'.flushers| ensures FlusherOk(s', g) {
      assert FlusherOk(s, g);
      if g != f {
        FlusherStays(s, s', g);
      } else {
        forall k | 0 <= k < |s'.frames| && InClaim(s', |s.claims|, k)
          ensures s'.frames[k].phase == Claimed && s'.frames[k].claim == |s.claims|
        {
          assert FrameOk(s, k);
        }
      }
    }
  }

  lemma TakeAllResults(s: Ring, s': Ring, f: nat)
    requires TakesAll(s, s', f)
    ensures ResultsOk(s')
  {
    assert FlusherOk(s, f);
    forall c | 0 <= c < |s'.claims| ensures ResultOk(s', c) {
      if c < |s.claims| {
        assert ResultOk(s, c);
        if c in s.results {
          var Claim(_, base, count) := s.claims[c];
          RefusedSame(s.lossDisabled, s.frames, s'.frames, base, base + count, s.n);
        }
      }
    }
  }

  lemma TakeAllKeepsInv(s: Ring, f: nat)
    requires Inv(s) && f < |s.flushers|
    ensures Inv(TakeAll(s, f))
  {
    var s' := TakeAll(s, f);
    if s.flushers[f].FTaken? {
      TakeAllCore(s, s', f);
      TakeAllFrames(s, s', f);
      TakeAllSlots(s, s', f);
      TakeAllFlushers(s, s', f);
      TakeAllResults(s, s', f);
    }
  }

  /** The frame a flusher's loop has come to, and the slot it sits in. */
  lemma LoopFrame(s: Ring, f: nat) returns (k: nat)
    requires Inv(s) && f < |s.flushers|
    requires s.flushers[f].FMarking? || s.flushers[f].FReleasing?
    requires s.flushers[f].left > 0
    ensures var fl := s.flushers[f];
            && k < s.claimed && InClaim(s, fl.c, k) && s.frames[k].claim == fl.c && s.claims[fl.c].who == f
            && k == s.claims[fl.c].base + s.claims[fl.c].count - fl.left
            && s.frames[k].phase == (if fl.FMarking? then Claimed else Completed)
            && fl.t == Slot(k, s.n) && s.owner[fl.t] == k && s.mb[fl.t]
            && NextSlot(fl.t, s.n) == Slot(k + 1, s.n)
  {
    assert FlusherOk(s, f);
    var fl := s.flushers[f];
    k := s.claims[fl.c].base + s.claims[fl.c].count - fl.left;
    assert InClaim(s, fl.c, k);
    assert FrameOk(s, k);
    SlotNext(k, s.n);
  }

  /** Frame `k` alone moves from one stage of its claim to the next, in its own slot. */
  ghost predicate OneFrame(s: Ring, s': Ring, k: nat, f: nat) {
    && Inv(s) && k < s.claimed && f < |s.flushers|
    && s.frames[k].phase != Released && s.frames[k].claim < |s.claims| && s.claims[s.frames[k].claim].who == f
    && s'.n == s.n && |s'.mb| == |s'.status| == s.n
    && s' == s.(mb := s'.mb, status := s'.status, frames := s'.frames, flushers := s'.flushers)
    && |s'.frames| == |s.frames| && s'.frames == s.frames[k := s.frames[k].(phase := s'.frames[k].phase)]
    && |s'.flushers| == |s.flushers| && s'.flushers == s.flushers[f := s'.flushers[f]]
    && Working(s'.flushers[f], s.frames[k].claim)
    && (forall i :: 0 <= i < s.n && i != Slot(k, s.n) ==> s'.mb[i] == s.mb[i] && s'.status[i] == s.status[i])
  }

  lemma OneFrameFrames(s: Ring, s': Ring, k: nat, f: nat)
    requires OneFrame(s, s', k, f) && FrameOk(s', k)
    ensures FramesOk(s')
  {
    assert FrameOk(s, k);
    forall j | 0 <= j < |s'.frames| ensures FrameOk(s', j) {
      if j != k {
        assert FrameOk(s, j);
        FrameStays(s, s', j);
      }
    }
  }

  lemma OneFrameFlushers(s: Ring, s': Ring, k: nat, f: nat)
    requires OneFrame(s, s', k, f) && FlusherOk(s', f)
    ensures FlushersOk(s')
  {
    forall g | 0 <= g < |s'.flushers| ensures FlusherOk(s', g) {
      if g != f {
        assert FlusherOk(s, g);
        FlusherStays(s, s', g);
      }
    }
  }

  lemma OneFrameResults(s: Ring, s': Ring, k: nat, f: nat)
    requires OneFrame(s, s', k, f)
    ensures ResultsOk(s')
  {
    assert FrameOk(s, k);
    ResultsStay(s, s');
  }

  lemma OneFrameRest(s: Ring, s': Ring, k: nat, f: nat)
    requires OneFrame(s, s', k, f) && SlotOk(s', Slot(k, s.n))
    requires Through(s.frames[k].phase) ==> Through(s'.frames[k].phase)
    requires !s.flushers[f].FTaken?
    ensures Core(s') && SlotsOk(s') && LogOk(s')
  {
    forall i | 0 <= i < s'.n ensures SlotOk(s', i) {
      assert SlotOk(s, i);
    }
  }

  lemma OneFrameKeepsInv(s: Ring, s': Ring, k: nat, f: nat)
    requires OneFrame(s, s', k, f) && FrameOk(s', k) && FlusherOk(s', f) && SlotOk(s', Slot(k, s.n))
    requires Through(s.frames[k].phase) ==> Through(s'.frames[k].phase)
    requires !s.flushers[f].FTaken?
    ensures Inv(s')
  {
    OneFrameFrames(s, s', k, f);
    OneFrameFlushers(s, s', k, f);
    OneFrameResults(s, s', k, f);
    OneFrameRest(s, s', k, f);
  }

  lemma MarkOne(s: Ring, f: nat, k: nat)
    requires Inv(s) && f < |s.flushers| && s.flushers[f].FMarking? && s.flushers[f].left > 0
    requires k < s.claimed && InClaim(s, s.flushers[f].c, k)
    requires k == s.claims[s.flushers[f].c].base + s.claims[s.flushers[f].c].count - s.flushers[f].left
    requires s.frames[k].phase == Claimed && s.flushers[f].t == Slot(k, s.n) && s.owner[Slot(k, s.n)] == k
    requires NextSlot(s.flushers[f].t, s.n) == Slot(k + 1, s.n)
    ensures var s' := Mark(s, f); FrameOk(s', k) && FlusherOk(s', f) && SlotOk(s', Slot(k, s.n))
  {
    assert FrameOk(s, k);
    assert FlusherOk(s, f);
  }

  lemma MarkEnds(s: Ring, f: nat)
    requires Inv(s) && f < |s.flushers| && s.flushers[f].FMarking? && s.flushers[f].left <= 0
    ensures Inv(Mark(s, f))
  {
    var s' := Mark(s, f);
    assert FlusherOk(s, f);
    MovedCore(s, f, s'.flushers[f]);
    ResultsStay(s, s');
    FlusherMoves(s, s', f);
  }

  lemma MarkKeepsInv(s: Ring, f: nat)
    requires Inv(s) && f < |s.flushers|
    ensures Inv(Mark(s, f))
  {
    if s.flushers[f].FMarking? {
      var s' := Mark(s, f);
      if s.flushers[f].left <= 0 {
        MarkEnds(s, f);
      } else {
        var k := LoopFrame(s, f);
        MarkOne(s, f, k);
        OneFrameKeepsInv(s, s', k, f);
      }
    }
  }

  /** The send call returns with all of the claim completed and none of it released. */
  lemma SentAll(s: Ring, f: nat)
    requires s.n > 0 && s.claimed <= |s.frames| && f < |s.flushers| && FlusherOk(s, f)
    requires s.flushers[f].FSending? && SendDone(s, s.flushers[f].c) && s.claims[s.flushers[f].c].count >= 0
    ensures FlusherOk(Send(s, f), f)
  {
  }

  lemma SendKeepsInv(s: Ring, f: nat)
    requires Inv(s) && f < |s.flushers|
    ensures Inv(Send(s, f))
  {
    if s.flushers[f].FSending? && SendDone(s, s.flushers[f].c) {
      assert FlusherOk(s, f);
      assert Follows(s.claims, s.flushers[f].c);
      SentAll(s, f);
      MovedCore(s, f, Send(s, f).flushers[f]);
      ResultsStay(s, Send(s, f));
      FlusherMoves(s, Send(s, f), f);
    }
  }

  lemma ReleaseAccounts(s: Ring, s': Ring, flushed: nat, errs: seq<int>, a: nat, k: nat)
    requires Accounts(s, flushed, errs, a, k) && a <= k < |s.frames| == |s'.frames|
    requires s'.lossDisabled == s.lossDisabled && s'.n == s.n
    requires forall j :: 0 <= j < |s.frames| ==> s'.frames[j].ok == s.frames[j].ok
    ensures if s.lossDisabled && !s.frames[k].ok then Accounts(s', flushed, errs + [Slot(k, s.n)], a, k + 1)
            else Accounts(s', flushed + 1, errs, a, k + 1)
  {
    RefusedSame(s.lossDisabled, s.frames, s'.frames, a, k, s.n);
  }

  lemma ReleaseOne(s: Ring, f: nat, k: nat)
    requires Inv(s) && f < |s.flushers| && s.flushers[f].FReleasing? && s.flushers[f].left > 0
    requires k < s.claimed && s.frames[k].phase == Completed
    requires s.flushers[f].t == Slot(k, s.n) && s.owner[Slot(k, s.n)] == k
    ensures var s' := Release(s, f); FrameOk(s', k) && SlotOk(s', Slot(k, s.n))
  {
    assert FrameOk(s, k);
  }

  lemma ReleaseCounts(s: Ring, f: nat, k: nat)
    requires Shaped(s) && k < |s.frames| && f < |s.flushers|
    requires s.flushers[f].FReleasing? && s.flushers[f].left > 0 && InClaim(s, s.flushers[f].c, k)
    requires s.flushers[f].t == Slot(k, s.n)
    requires s.status[Slot(k, s.n)] == if s.frames[k].ok then Available else WrongFormat
    requires Accounts(s, s.flushers[f].flushed, s.flushers[f].errs, s.claims[s.flushers[f].c].base, k)
    ensures var s' := Release(s, f);
            && s'.flushers[f].FReleasing?
            && Accounts(s', s'.flushers[f].flushed, s'.flushers[f].errs, s.claims[s.flushers[f].c].base, k + 1)
  {
    var fl := s.flushers[f];
    ReleaseAccounts(s, Release(s, f), fl.flushed, fl.errs, s.claims[fl.c].base, k);
  }

  lemma ReleaseMoves(s: Ring, f: nat, k: nat)
    requires Shaped(s) && k < s.claimed <= |s.frames| && f < |s.flushers| && FlusherOk(s, f)
    requires s.flushers[f].FReleasing? && s.flushers[f].left > 0 && InClaim(s, s.flushers[f].c, k)
    requires k == s.claims[s.flushers[f].c].base + s.claims[s.flushers[f].c].count - s.flushers[f].left
    requires s.flushers[f].t == Slot(k, s.n) && s.owner[Slot(k, s.n)] == k
    requires s.status[Slot(k, s.n)] == if s.frames[k].ok then Available else WrongFormat
    requires NextSlot(s.flushers[f].t, s.n) == Slot(k + 1, s.n)
    ensures FlusherOk(Release(s, f), f)
  {
    ReleaseCounts(s, f, k);
  }

  lemma ReleaseGoesOn(s: Ring, f: nat, k: nat)
    requires Inv(s) && f < |s.flushers| && s.flushers[f].FReleasing? && s.flushers[f].left > 0
    requires k < s.claimed && InClaim(s, s.flushers[f].c, k) && s.frames[k].phase == Completed
    requires k == s.claims[s.flushers[f].c].base + s.claims[s.flushers[f].c].count - s.flushers[f].left
    requires s.flushers[f].t == Slot(k, s.n) && s.owner[Slot(k, s.n)] == k
    requires NextSlot(s.flushers[f].t, s.n) == Slot(k + 1, s.n)
    ensures FlusherOk(Release(s, f), f)
  {
    assert FrameOk(s, k) && FlusherOk(s, f);
    ReleaseMoves(s, f, k);
  }

  /** When the loop is through, all of the claim is released. */
  lemma AllReleased(s: Ring, f: nat, k: nat)
    requires Inv(s) && f < |s.flushers| && s.flushers[f].FReleasing? && s.flushers[f].left <= 0
    requires k < s.claimed && Working(s.flushers[f], s.frames[k].claim)
    ensures s.frames[k].phase == Released
  {
    assert FlusherOk(s, f);
    assert FrameOk(s, k);
  }

  lemma ReleaseReports(s: Ring, f: nat)
    requires Inv(s) && f < |s.flushers| && s.flushers[f].FReleasing? && s.flushers[f].left <= 0
    ensures ResultsOk(Release(s, f))
  {
    var s' := Release(s, f);
    assert FlusherOk(s, f);
    forall d | 0 <= d < |s'.claims| ensures ResultOk(s', d) {
      assert ResultOk(s, d);
    }
  }

  lemma ReleaseEnds(s: Ring, f: nat)
    requires Inv(s) && f < |s.flushers| && s.flushers[f].FReleasing? && s.flushers[f].left <= 0
    ensures Inv(Release(s, f))
  {
    forall k | 0 <= k < s.claimed && Working(s.flushers[f], s.frames[k].claim)
      ensures s.frames[k].phase == Released
    {
      AllReleased(s, f, k);
    }
    MovedCore(s, f, FIdle);
    ReleaseReports(s, f);
    FlusherMoves(s, Release(s, f), f);
  }

  lemma ReleaseKeepsInv(s: Ring, f: nat)
    requires Inv(s) && f < |s.flushers|
    ensures Inv(Release(s, f))
  {
    if s.flushers[f].FReleasing? {
      var s' := Release(s, f);
      if s.flushers[f].left <= 0 {
        ReleaseEnds(s, f);
      } else {
        var k := LoopFrame(s, f);
        ReleaseOne(s, f, k);
        ReleaseGoesOn(s, f, k);
        OneFrameKeepsInv(s, s', k, f);
      }
    }
  }

  // ---------- the kernel ----------

  lemma StartKeepsInv(s: Ring, i: nat)
    requires Inv(s)
    ensures Inv(Start(s, i))
  {
    if Is(s.status, i, SendRequest) {
      var s' := Start(s, i);
      ResultsStay(s, s');
      forall k | 0 <= k < |s'.frames| ensures FrameOk(s', k) {
        assert FrameOk(s, k);
        FrameStays(s, s', k);
      }
      forall j | 0 <= j < s'.n ensures SlotOk(s', j) {
        assert SlotOk(s, j);
      }
      forall f | 0 <= f < |s'.flushers| ensures FlusherOk(s', f) {
        FlusherStays(s, s', f);
      }
    }
  }

  /** What the kernel sends from a slot is what was written for its frame. */
  lemma BusyFrame(s: Ring, i: nat)
    requires Inv(s) && i < s.n && Busy(s.status[i])
    ensures var k := s.owner[i];
            && k < s.claimed && Slot(k, s.n) == i
            && s.frames[k].phase == Requested && s.frames[k].payload == s.data[i]
  {
    assert SlotOk(s, i);
    assert FrameOk(s, s.owner[i]);
  }

  lemma CompleteOne(s: Ring, i: nat, ok: bool)
    requires Inv(s) && i < s.n && Busy(s.status[i]) && s.owner[i] < |s.frames|
    requires s.frames[s.owner[i]].phase == Requested && Slot(s.owner[i], s.n) == i && s.owner[i] < s.claimed
    ensures FrameOk(Complete(s, i, ok), s.owner[i])
  {
    assert FrameOk(s, s.owner[i]);
  }

  lemma CompleteFrames(s: Ring, i: nat, ok: bool)
    requires Inv(s) && i < s.n && Busy(s.status[i])
    ensures FramesOk(Complete(s, i, ok))
  {
    var s' := Complete(s, i, ok);
    BusyFrame(s, i);
    CompleteOne(s, i, ok);
    forall j | 0 <= j < |s'.frames| ensures FrameOk(s', j) {
      if j != s.owner[i] {
        assert FrameOk(s, j);
        FrameStays(s, s', j);
      }
    }
  }

  lemma CompleteLog(s: Ring, i: nat, ok: bool)
    requires LogOk(s) && i < |s.data| && i < |s.owner| && s.owner[i] < |s.frames|
    requires s.frames[s.owner[i]].phase == Requested && s.frames[s.owner[i]].payload == s.data[i]
    ensures LogOk(Complete(s, i, ok))
  {
  }

  lemma CompleteSlots(s: Ring, i: nat, ok: bool)
    requires Inv(s) && i < s.n && Busy(s.status[i])
    ensures SlotsOk(Complete(s, i, ok))
  {
    var s' := Complete(s, i, ok);
    BusyFrame(s, i);
    forall j | 0 <= j < s'.n ensures SlotOk(s', j) {
      assert SlotOk(s, j);
    }
  }

  lemma CompleteFlushers(s: Ring, i: nat, ok: bool)
    requires Inv(s) && i < s.n && Busy(s.status[i])
    ensures FlushersOk(Complete(s, i, ok))
  {
    var s' := Complete(s, i, ok);
    BusyFrame(s, i);
    forall f | 0 <= f < |s'.flushers| ensures FlusherOk(s', f) {
      FlusherStays(s, s', f);
    }
  }

  lemma CompleteKeepsInv(s: Ring, i: nat, ok: bool)
    requires Inv(s)
    ensures Inv(Complete(s, i, ok))
  {
    if i < s.n && Busy(s.status[i]) {
      var s' := Complete(s, i, ok);
      BusyFrame(s, i);
      CompleteFrames(s, i, ok);
      CompleteLog(s, i, ok);
      CompleteSlots(s, i, ok);
      CompleteFlushers(s, i, ok);
      ResultsStay(s, s');
    }
  }

  lemma StepKeepsInv(s: Ring, a: Action)
    requires Inv(s)
    ensures Inv(Step(s, a))
  {
    match a
    case PTake => TakeKeepsInv(s);
    case PFill(payload) => FillKeepsInv(s, payload);
    case PCount => CountKeepsInv(s);
    case FLoad(f) => if f < |s.flushers| { LoadKeepsInv(s, f); }
    case FSwap(f) => if f < |s.flushers| { SwapKeepsInv(s, f); }
    case FTake(f) => if f < |s.flushers| { TakeAllKeepsInv(s, f); }
    case FMark(f) => if f < |s.flushers| { MarkKeepsInv(s, f); }
    case FSend(f) => if f < |s.flushers| { SendKeepsInv(s, f); }
    case FRelease(f) => if f < |s.flushers| { ReleaseKeepsInv(s, f); }
    case KStart(i) => StartKeepsInv(s, i);
    case KComplete(i, ok) => CompleteKeepsInv(s, i, ok);
    case _ => IndexMoves(s, a);
  }

  lemma {:induction false} TraceKeepsInv(actions: seq<Action>, trace: seq<Ring>, i: nat)
    requires IsTrace(actions, trace) && Inv(trace[0]) && i <= |actions|
    ensures Inv(trace[i])
  {
    if i > 0 {
      TraceKeepsInv(actions, trace, i - 1);
      TraceStep(actions, trace, i - 1);
      StepKeepsInv(trace[i - 1], actions[i - 1]);
    }
  }

  lemma LeadsToInv(s: Ring, s': Ring)
    requires LeadsTo(s, s') && Inv(s)
    ensures Inv(s')
  {
    var actions, trace :| IsTrace(actions, trace) && trace[0] == s && trace[|actions|] == s';
    TraceKeepsInv(actions, trace, |actions|);
  }

  function SetupOf(s: Ring): Setup {
    Setup(s.n, |s.flushers|, s.lossDisabled)
  }

  lemma StepKeepsSetup(s: Ring, a: Action)
    ensures SetupOf(Step(s, a)) == SetupOf(s)
  {
  }

  lemma {:induction false} TraceKeepsSetup(actions: seq<Action>, trace: seq<Ring>, i: nat)
    requires IsTrace(actions, trace) && i <= |actions|
    ensures SetupOf(trace[i]) == SetupOf(trace[0])
  {
    if i > 0 {
      TraceKeepsSetup(actions, trace, i - 1);
      TraceStep(actions, trace, i - 1);
      StepKeepsSetup(trace[i - 1], actions[i - 1]);
    }
  }

  lemma ReachableInv(s: Ring, u: Setup)
    requires Reachable(s, u) && u.frameNum > 0
    ensures Inv(s) && SetupOf(s) == u
  {
    InitialInv(u);
    LeadsToInv(TxRing.Initial(u), s);
    var actions, trace :| IsTrace(actions, trace) && trace[0] == TxRing.Initial(u) && trace[|actions|] == s;
    TraceKeepsSetup(actions, trace, |actions|);
  }
}
