/** The transmit side of `ZSocket` (zsocket.go) on one thread, with the kernel's send
    loop.  Each step of the code on the shared counters, flags and status words is
    a step of the ghost `ring`, so all that holds of the protocol holds here. */
module ZSockets {
  import opened Wire
  import opened TxRing
  import opened RingSafety
  import opened RingTheorems

  class ZSocket {
    const frameNum: nat
    const txEnabled: bool
    const txLossDisabled: bool
    const accepts: Payload -> bool  // the kernel's test of a frame's format
    var txIndex: int
    var txWritten: int
    var txWrittenIndex: int
    const mb: array<bool>
    const status: array<Status>
    const data: array<Payload>
    var kHead: int                  // the kernel's place in the ring
    var wire: seq<Payload>          // what the kernel has transmitted
    ghost var ring: Ring

    ghost function Options(): Setup {
      Setup(frameNum, 1, txLossDisabled)
    }

    ghost predicate Tied()
      reads this, mb, status, data
    {
      && Sound(ring, Options()) && mb.Length == status.Length == data.Length == frameNum
      && mb as object != status && mb as object != data && status as object != data
      && ring.txIndex == txIndex && ring.txWritten == txWritten && ring.txWrittenIndex == txWrittenIndex
      && ring.mb == mb[..] && ring.status == status[..] && ring.data == data[..]
      && Sequential(ring, accepts)
      && kHead == Slot(|ring.log|, frameNum) && wire == OnWire(ring.log)
    }

    /** Between calls: nobody is at work and all that was claimed is completed. */
    ghost predicate Valid()
      reads this, mb, status, data
    {
      Tied() && ring.producer.PIdle? && ring.flushers[0].FIdle? && |ring.log| == ring.claimed && txWritten <= frameNum
    }

    /** The frames that wait for a flush. */
    ghost function Waiting(): (w: seq<Payload>)
      requires Valid()
      reads this, mb, status, data
      ensures |w| == txWritten
    {
      Contents(ring.frames)[ring.claimed..ring.written]
    }

    constructor (frameNum: nat, txEnabled: bool, txLossDisabled: bool, accepts: Payload -> bool)
      requires frameNum > 0
      ensures Valid() && this.frameNum == frameNum && this.txEnabled == txEnabled
      ensures this.txLossDisabled == txLossDisabled && this.accepts == accepts
      ensures Waiting() == [] && wire == []
      ensures fresh(mb) && fresh(status) && fresh(data)
    {
      this.frameNum, this.txEnabled, this.txLossDisabled, this.accepts := frameNum, txEnabled, txLossDisabled, accepts;
      txIndex, txWritten, txWrittenIndex, kHead := 0, 0, -1, 0;
      mb := new bool[frameNum](_ => false);
      status := new Status[frameNum](_ => Available);
      data := new Payload[frameNum](_ => []);
      wire := [];
      ring := Initial(Setup(frameNum, 1, txLossDisabled));
      new;
      LeadsNowhere(ring);
    }

    // ---------- the producer ----------

    method CasIndex(i: int) returns (ok: bool)
      requires frameNum > 0
      modifies this`txIndex
      ensures ok == (old(txIndex) == i) && txIndex == if ok then (i + 1) % frameNum else old(txIndex)
    {
      ok := txIndex == i;
      if ok {
        txIndex := (i + 1) % frameNum;
      }
    }

    /** The loop that moves `txIndex` on. */
    method ClaimIndex() returns (i: int)
      requires Tied() && ring.producer.PChecked?
      modifies this`txIndex, this`ring
      ensures Tied() && i == old(txIndex)
      ensures ring == old(ring).(txIndex := NextSlot(i, frameNum), producer := PClaimed(i))
    {
      var ok := false;
      i := 0;
      while !ok
        invariant Tied()
        invariant ring == if !ok then old(ring)
                          else old(ring).(txIndex := NextSlot(i, frameNum), producer := PClaimed(i))
        invariant ok ==> i == old(txIndex)
        decreases !ok
      {
        i := txIndex;
        ring := LoadStep(ring, Options());
        ok := CasIndex(i);
        ring := SwapStep(ring, Options());
      }
    }

    method TxReady(i: int) returns (ok: bool)
      requires 0 <= i < status.Length
      ensures ok == !Busy(status[i])
    {
      ok := status[i] != SendRequest && status[i] != Sending;
    }

    method TxMbReady(i: int) returns (ok: bool)
      requires 0 <= i < mb.Length
      modifies mb
      ensures ok == !old(mb[i]) && mb[..] == old(mb[..])[i := true]
    {
      ok := !mb[i];
      mb[i] := true;
    }

    /** Waits until the kernel does not want slot `i`.  On one thread the first test succeeds. */
    method AwaitKernel(i: int)
      requires Tied() && ring.flushers[0].FIdle? && ring.producer == PClaimed(i)
      modifies this`ring
      ensures Tied() && ring == old(ring).(producer := PReady(i))
    {
      var ready := false;
      while !ready
        invariant Tied() && ring == if ready then old(ring).(producer := PReady(i)) else old(ring)
        decreases !ready
      {
        WantedIsFree(ring, Options());
        ready := TxReady(i);
        ring := PollStep(ring, Options());
      }
    }

    /** Waits until the flag of slot `i` is free, and takes it.  On one thread the
        first try succeeds. */
    method AwaitFlag(i: int)
      requires Tied() && ring.flushers[0].FIdle? && ring.producer == PReady(i)
      modifies this`ring, mb
      ensures Tied()
      ensures ring == old(ring).(mb := Put(old(ring).mb, i, true), producer := PHeld(i),
                                 owner := Put(old(ring).owner, i, |old(ring).frames|),
                                 frames := old(ring).frames + [NewFrame([])])
    {
      var taken := false;
      while !taken
        invariant Tied()
        invariant ring == if !taken then old(ring)
                          else old(ring).(mb := Put(old(ring).mb, i, true), producer := PHeld(i),
                                          owner := Put(old(ring).owner, i, |old(ring).frames|),
                                          frames := old(ring).frames + [NewFrame([])])
        decreases !taken
      {
        WantedIsFree(ring, Options());
        taken := TxMbReady(i);
        ring := TakeStep(ring, Options());
      }
    }

    /** The next slot, with its flag taken; `None` when every slot waits for a flush. */
    method GetFreeTx() returns (r: Option<int>)
      requires Valid()
      modifies this`txIndex, this`ring, mb
      ensures Tied()
      ensures r == None <==> old(txWritten) == frameNum
      ensures r == None ==> ring == old(ring)
      ensures r.Some? ==> ring == Acquired(old(ring)) && r.value == old(txIndex)
    {
      if txWritten == frameNum {
        return None;
      }
      ring := CheckStep(ring, Options());
      var i := ClaimIndex();
      AwaitKernel(i);
      AwaitFlag(i);
      r := Some(i);
    }

    /** The frame is copied into the slot that is held. */
    method Fill(i: int, frame: Payload)
      requires Tied() && ring.producer == PHeld(i)
      modifies this`ring, data
      ensures Tied() && |old(ring).frames| == old(ring).written + 1
      ensures ring == old(ring).(data := ring.data, producer := PFilled(i),
                                 frames := old(ring).frames[old(ring).written := NewFrame(frame)])
    {
      ring := FillStep(ring, Options(), frame);
      data[i] := frame;
    }

    /** The frame in slot `i` is counted, and the slot published if it is the first. */
    method Count(i: int)
      requires Tied() && ring.producer == PFilled(i) && |ring.frames| == ring.written + 1
      modifies this`txWritten, this`txWrittenIndex, this`ring
      ensures Tied() && txWritten == old(txWritten) + 1
      ensures var s := old(ring);
              ring == s.(txWritten := txWritten, txWrittenIndex := txWrittenIndex, written := s.written + 1,
                         producer := PIdle,
                         frames := s.frames[s.written := s.frames[s.written].(phase := Written)])
    {
      ring := CountStep(ring, Options());
      txWritten := txWritten + 1;
      if txWritten == 1 {
        ring := PublishStep(ring, Options());
        txWrittenIndex := i;
      }
    }

    /** The frame is added to those that wait, unless the ring is disabled or full. */
    method CopyToBuffer(frame: Payload) returns (r: Option<int>)
      requires Valid()
      modifies this`txIndex, this`txWritten, this`txWrittenIndex, this`ring, mb, data
      ensures Valid()
      ensures r == None <==> !txEnabled || old(txWritten) == frameNum
      ensures r == None ==> ring == old(ring)
      ensures r.Some? ==> r.value == old(txIndex) && Waiting() == old(Waiting()) + [frame]
    {
      if !txEnabled {
        return None;
      }
      r := GetFreeTx();
      if r == None {
        return;
      }
      Fill(r.value, frame);
      Count(r.value);
    }

    // ---------- the flusher ----------

    method CasWrittenIndex(index: int) returns (ok: bool)
      modifies this`txWrittenIndex
      ensures ok == (old(txWrittenIndex) == index) && txWrittenIndex == if ok then -1 else old(txWrittenIndex)
    {
      ok := txWrittenIndex == index;
      if ok {
        txWrittenIndex := -1;
      }
    }

    /** The loop that takes the published index, -1 when there is none. */
    method TakeIndex() returns (index: int)
      requires Tied() && ring.flushers == [FIdle]
      modifies this`txWrittenIndex, this`ring
      ensures Tied() && index == old(txWrittenIndex)
      ensures ring == if index == -1 then old(ring)
                      else old(ring).(txWrittenIndex := -1, taker := Some(0), flushers := [FTaken(index)])
    {
      var ok := false;
      index := -1;
      while !ok
        invariant Tied()
        invariant ring == if !ok then old(ring)
                          else old(ring).(txWrittenIndex := -1, taker := Some(0), flushers := [FTaken(index)])
        invariant ok ==> index == old(txWrittenIndex) != -1
        decreases !ok
      {
        index := txWrittenIndex;
        if index == -1 {
          return;
        }
        ring := LoadIndexStep(ring, Options());
        ok := CasWrittenIndex(index);
        ring := SwapIndexStep(ring, Options());
      }
    }

    /** The first loop of `FlushFrames`: the frames of the claim are requested. */
    method MarkAll(index: int, written: nat)
      requires Tied() && ring.flushers[0].FMarking?
      requires ring.flushers[0].index == ring.flushers[0].t == index && ring.flushers[0].left == written
      modifies this`ring, status
      ensures Tied() && Kept(old(ring), ring) && ring.mb == old(ring).mb && ring.log == old(ring).log
      ensures ring.flushers == [FSending(old(ring).flushers[0].c, index)]
    {
      ghost var c := ring.flushers[0].c;
      var t, w := index, written;
      while w > 0
        invariant 0 <= w && Tied() && Kept(old(ring), ring) && ring.mb == old(ring).mb && ring.log == old(ring).log
        invariant ring.flushers == [FMarking(c, index, t, w)]
      {
        ring := MarkStep(ring, Options());
        status[t] := SendRequest;
        t := (t + 1) % frameNum;
        w := w - 1;
      }
      ring := MarkedStep(ring, Options());
    }

    /** The kernel takes the frame at its place: it sends it or refuses its format,
        hands the slot back and moves on. */
    method SendOne()
      requires Tied() && ring.flushers[0].FSending? && |ring.log| < ring.claimed
      modifies this`kHead, this`wire, this`ring, status
      ensures Tied() && Kept(old(ring), ring) && ring.mb == old(ring).mb && ring.flushers == old(ring).flushers
      ensures |ring.log| == |old(ring).log| + 1 && Wanted(ring, kHead)
    {
      ring := CompleteStep(ring, Options(), accepts);
      var frame := data[kHead];
      var ok := Fits(accepts, frame);
      wire := wire + if ok then [frame] else [];
      status[kHead] := if ok then Available else WrongFormat;
      kHead := NextSlot(kHead, frameNum);
    }

    /** The kernel, called to send: from its own place on it takes one frame after
        the other as long as the status word asks for it.  It stops when all that
        is claimed is completed, and not before. */
    method Sendto()
      requires Tied() && ring.flushers[0].FSending? && |ring.log| <= ring.claimed
      modifies this`kHead, this`wire, this`ring, status
      ensures Tied() && Kept(old(ring), ring) && ring.mb == old(ring).mb && |ring.log| == ring.claimed
      ensures var c := old(ring).flushers[0].c;
              && c < |ring.claims|
              && ring.flushers == [FReleasing(c, old(ring).flushers[0].index, ring.claims[c].count, 0, [])]
      ensures wire == old(wire) + Passed(accepts, Contents(ring.frames)[|old(ring).log|..ring.claimed])
    {
      HeadIsWanted(ring, Options(), accepts);
      while status[kHead] == SendRequest
        invariant Tied() && Wanted(ring, kHead) && Kept(old(ring), ring) && ring.mb == old(ring).mb
        invariant ring.flushers == old(ring).flushers && |old(ring).log| <= |ring.log| <= ring.claimed
        decreases ring.claimed - |ring.log|
      {
        SendOne();
      }
      WireGrows(old(ring), ring, Options(), accepts);
      ring := SentStep(ring, Options(), accepts);
    }

    /** One turn of the second loop of `FlushFrames`: slot `t` is given back. */
    method GiveBack(t: int) returns (bad: bool)
      requires Tied() && ring.flushers[0].FReleasing? && ring.flushers[0].left > 0 && ring.flushers[0].t == t
      modifies this`ring, mb
      ensures Tied() && Kept(old(ring), ring) && ring.log == old(ring).log
      ensures var FReleasing(c, _, left, flushed, errs) := old(ring).flushers[0];
              ring.flushers == [if bad then FReleasing(c, NextSlot(t, frameNum), left - 1, flushed, errs + [t])
                                else FReleasing(c, NextSlot(t, frameNum), left - 1, flushed + 1, errs)]
    {
      ring := ReleaseStep(ring, Options());
      bad := txLossDisabled && status[t] == WrongFormat;
      mb[t] := false;
    }

    /** The second loop of `FlushFrames`: the frames are given back, and those the
        kernel refused are reported where refusals are. */
    method ReleaseAll(index: int, written: nat) returns (flushed: nat, errs: seq<int>)
      requires Tied() && ring.flushers[0].FReleasing?
      requires ring.flushers == [FReleasing(ring.flushers[0].c, index, written, 0, [])]
      modifies this`ring, mb
      ensures Tied() && Kept(old(ring), ring) && ring.log == old(ring).log && ring.flushers == [FIdle]
      ensures var c := old(ring).flushers[0].c;
              c < |ring.claims| &&
              Accounts(ring, flushed, errs, ring.claims[c].base, ring.claims[c].base + ring.claims[c].count)
    {
      ghost var c := ring.flushers[0].c;
      flushed, errs := 0, [];
      var t, w := index, written;
      while w > 0
        invariant 0 <= w && Tied() && Kept(old(ring), ring) && ring.log == old(ring).log
        invariant ring.flushers == [FReleasing(c, t, w, flushed, errs)]
      {
        var bad := GiveBack(t);
        if bad {
          errs := errs + [t];
        } else {
          flushed := flushed + 1;
        }
        t := (t + 1) % frameNum;
        w := w - 1;
      }
      ring := ReleasedStep(ring, Options());
    }

    /** A flush has claimed `written` frames from slot `index` on, in the last claim so far. */
    ghost predicate Claiming(index: int, written: nat)
      reads this
    {
      && |ring.claims| > 0 && ring.claims[|ring.claims| - 1].count == written
      && ring.flushers == [FMarking(|ring.claims| - 1, index, index, written)]
    }

    /** The claimed frames are requested and sent. */
    method Transmit(index: int, written: nat)
      requires Tied() && Claiming(index, written) && |ring.log| <= ring.claimed
      modifies this`kHead, this`wire, this`ring, status
      ensures Tied() && Kept(old(ring), ring) && |ring.log| == ring.claimed
      ensures ring.flushers == [FReleasing(|ring.claims| - 1, index, written, 0, [])]
      ensures wire == old(wire) + Passed(accepts, Contents(ring.frames)[|old(ring).log|..ring.claimed])
    {
      MarkAll(index, written);
      Sendto();
    }

    /** What `FlushFrames` does to the frames it has claimed: request, send, give back. */
    method FlushClaim(index: int, written: nat) returns (flushed: nat, errs: seq<int>)
      requires Tied() && Claiming(index, written) && |ring.log| == ring.claimed - written
      modifies this`kHead, this`wire, this`ring, mb, status
      ensures Tied() && Kept(old(ring), ring) && ring.flushers == [FIdle] && |ring.log| == ring.claimed
      ensures wire == old(wire) + Passed(accepts, Contents(ring.frames)[ring.claimed - written..ring.claimed])
      ensures Accounts(ring, flushed, errs, ring.claimed - written, ring.claimed)
    {
      LastClaim(ring, Options());
      Transmit(index, written);
      flushed, errs := ReleaseAll(index, written);
    }

    /** Everything that waits is given to the kernel in the order of writing; what it
        accepts goes out, and what it refuses is reported if refusals are; all slots
        are free again. */
    method FlushFrames() returns (ok: bool, flushed: nat, errs: seq<int>)
      requires Valid()
      modifies this`txWritten, this`txWrittenIndex, this`kHead, this`wire, this`ring, mb, status
      ensures Valid() && ok == txEnabled
      ensures !ok ==> ring == old(ring) && wire == old(wire) && flushed == 0 && errs == []
      ensures ok ==> Waiting() == [] && wire == old(wire) + Passed(accepts, old(Waiting()))
      ensures ok ==> flushed + |errs| == old(txWritten)
      ensures ok ==>
        errs == if txLossDisabled then BadSlots(accepts, old(Waiting()), old(ring).claimed, frameNum) else []
    {
      if !txEnabled {
        return false, 0, [];
      }
      IndexIffWaiting(ring, Options());
      var index := TakeIndex();
      if index == -1 {
        return true, 0, [];
      }
      var written := txWritten;
      ring := TakeAllStep(ring, Options());
      txWritten := 0;
      flushed, errs := FlushClaim(index, written);
      ReportedAreBad(ring, Options(), accepts, old(ring).claimed);
      ok := true;
    }
  }

  /** The kernel takes the frame. */
  predicate Fits(accepts: Payload -> bool, frame: Payload) {
    accepts(frame)
  }

  /** The states of a ring with one flushing thread. */
  ghost predicate Sound(s: Ring, u: Setup) {
    u.frameNum > 0 && u.flushers == 1 && Reachable(s, u) && SetupOf(s) == u && Counts(s)
  }

  /** The kernel works in ring order, decides by `accepts`, and is never caught half-way. */
  ghost predicate Sequential(s: Ring, accepts: Payload -> bool) {
    && (forall j :: 0 <= j < |s.log| ==> s.log[j].frame == j && s.log[j].ok == Fits(accepts, s.log[j].payload))
    && (forall i :: 0 <= i < |s.status| ==> s.status[i] != Sending)
  }

  lemma Next(s: Ring, u: Setup, a: Action)
    requires Sound(s, u)
    ensures Sound(Step(s, a), u)
  {
    LeadsToStep(TxRing.Initial(u), s, a);
    ReachableInv(Step(s, a), u);
  }

  // ---------- the producer's steps ----------

  lemma CheckStep(s: Ring, u: Setup) returns (s': Ring)
    requires Sound(s, u) && s.producer.PIdle? && s.txWritten != s.n
    ensures Sound(s', u) && s' == s.(producer := PChecked)
  {
    Next(s, u, PCheck);
    s' := Check(s);
  }

  lemma LoadStep(s: Ring, u: Setup) returns (s': Ring)
    requires Sound(s, u) && s.producer.PChecked?
    ensures Sound(s', u) && s' == s.(producer := PLoaded(s.txIndex))
  {
    Next(s, u, PLoad);
    s' := LoadIndex(s);
  }

  lemma SwapStep(s: Ring, u: Setup) returns (s': Ring)
    requires Sound(s, u) && s.producer.PLoaded?
    ensures Sound(s', u)
    ensures s' == if s.txIndex != s.producer.i then s.(producer := PChecked)
                  else s.(txIndex := NextSlot(s.txIndex, s.n), producer := PClaimed(s.txIndex))
  {
    Next(s, u, PSwap);
    s' := SwapIndex(s);
  }

  lemma PollStep(s: Ring, u: Setup) returns (s': Ring)
    requires Sound(s, u) && s.producer.PClaimed? && 0 <= s.producer.i < |s.status| && !Busy(s.status[s.producer.i])
    ensures Sound(s', u) && s' == s.(producer := PReady(s.producer.i))
  {
    Next(s, u, PPoll);
    s' := PollSlot(s);
  }

  lemma TakeStep(s: Ring, u: Setup) returns (s': Ring)
    requires Sound(s, u) && s.producer.PReady? && Is(s.mb, s.producer.i, false)
    ensures Sound(s', u)
    ensures var i := s.producer.i;
            s' == s.(mb := s.mb[i := true], producer := PHeld(i), owner := Put(s.owner, i, |s.frames|),
                     frames := s.frames + [NewFrame([])])
  {
    Next(s, u, PTake);
    s' := TakeFlag(s);
  }

  lemma FillStep(s: Ring, u: Setup, frame: Payload) returns (s': Ring)
    requires Sound(s, u) && s.producer.PHeld?
    ensures Sound(s', u) && 0 <= s.producer.i < |s.data| && |s.frames| == s.written + 1
    ensures s' == s.(data := s.data[s.producer.i := frame], producer := PFilled(s.producer.i),
                     frames := s.frames[s.written := NewFrame(frame)])
  {
    ReachableInv(s, u);
    Next(s, u, PFill(frame));
    s' := Fill(s, frame);
  }

  lemma CountStep(s: Ring, u: Setup) returns (s': Ring)
    requires Sound(s, u) && s.producer.PFilled?
    ensures Sound(s', u) && |s.frames| == s.written + 1
    ensures s' == s.(txWritten := s.txWritten + 1, written := s.written + 1,
                     producer := if s.txWritten + 1 == 1 then PCounted(s.producer.i) else PIdle,
                     frames := s.frames[s.written := s.frames[s.written].(phase := Written)])
  {
    ReachableInv(s, u);
    Next(s, u, PCount);
    s' := Count(s);
  }

  lemma PublishStep(s: Ring, u: Setup) returns (s': Ring)
    requires Sound(s, u) && s.producer.PCounted?
    ensures Sound(s', u) && s' == s.(txWrittenIndex := s.producer.i, producer := PIdle)
  {
    Next(s, u, PPublish);
    s' := Publish(s);
  }

  /** What the kernel has sent: the payloads of the successful completions. */
  function OnWire(log: seq<Completion>): seq<Payload> {
    if log == [] then []
    else OnWire(log[..|log| - 1]) + if log[|log| - 1].ok then [log[|log| - 1].payload] else []
  }

  /** The payloads of all frames. */
  function Contents(frames: seq<Frame>): (p: seq<Payload>)
    ensures |p| == |frames|
    ensures forall k :: 0 <= k < |frames| ==> p[k] == frames[k].payload
  {
    seq(|frames|, k requires 0 <= k < |frames| => frames[k].payload)
  }

  /** What the kernel accepts of some frames. */
  function Passed(accepts: Payload -> bool, ps: seq<Payload>): seq<Payload> {
    if ps == [] then []
    else
      var last := ps[|ps| - 1];
      Passed(accepts, ps[..|ps| - 1]) + if Fits(accepts, last) then [last] else []
  }

  predicate AllFit(accepts: Payload -> bool, ps: seq<Payload>) {
    forall p :: p in ps ==> Fits(accepts, p)
  }

  /** All of some frames go out, or as many as there are, exactly when the kernel accepts each. */
  lemma {:induction false} PassedAll(accepts: Payload -> bool, ps: seq<Payload>)
    ensures |Passed(accepts, ps)| <= |ps|
    ensures |Passed(accepts, ps)| == |ps| <==> AllFit(accepts, ps)
    ensures Passed(accepts, ps) == ps <==> AllFit(accepts, ps)
  {
    if ps != [] {
      var init, last := ps[..|ps| - 1], ps[|ps| - 1];
      PassedAll(accepts, init);
      assert ps == init + [last];
      assert AllFit(accepts, ps) <==> AllFit(accepts, init) && Fits(accepts, last);
    }
  }

  /** The slots of the frames `first`, `first + 1`, ... that the kernel does not accept. */
  function BadSlots(accepts: Payload -> bool, ps: seq<Payload>, first: nat, n: nat): seq<int> {
    if ps == [] then []
    else
      BadSlots(accepts, ps[..|ps| - 1], first, n) +
      if Fits(accepts, ps[|ps| - 1]) then [] else [Slot(first + |ps| - 1, n)]
  }

  lemma WantedIsFree(s: Ring, u: Setup)
    requires Sound(s, u) && s.flushers[0].FIdle? && (s.producer.PClaimed? || s.producer.PReady?)
    ensures Is(s.mb, s.producer.i, false) && s.producer.i < |s.status| && !Busy(s.status[s.producer.i])
  {
    ReachableInv(s, u);
    WantedSlotIsFree(s);
  }

  /** The ring after the five steps of `getFreeTx`. */
  function Acquired(s: Ring): Ring {
    s.(txIndex := NextSlot(s.txIndex, s.n), mb := Put(s.mb, s.txIndex, true),
       producer := PHeld(s.txIndex), owner := Put(s.owner, s.txIndex, |s.frames|),
       frames := s.frames + [NewFrame([])])
  }

  // ---------- the flusher's steps ----------

  /** The same frames in the same claims, however far they got. */
  ghost predicate Kept(a: Ring, b: Ring) {
    && b.producer == a.producer && b.written == a.written && b.claimed == a.claimed && b.claims == a.claims
    && Contents(b.frames) == Contents(a.frames)
  }

  /** A step that also leaves the counters and the bytes in the ring alone. */
  ghost predicate KeptAll(a: Ring, b: Ring) {
    && Kept(a, b)
    && b.txIndex == a.txIndex && b.txWritten == a.txWritten && b.txWrittenIndex == a.txWrittenIndex && b.data == a.data
  }

  /** On one thread an index is published exactly while frames wait. */
  lemma IndexIffWaiting(s: Ring, u: Setup)
    requires Sound(s, u) && s.flushers[0].FIdle? && s.producer.PIdle?
    ensures s.txWrittenIndex == -1 <==> s.txWritten == 0
    ensures s.txWritten > 0 ==> s.txWrittenIndex == Slot(s.claimed, s.n)
  {
    ReachableInv(s, u);
  }

  lemma LoadIndexStep(s: Ring, u: Setup) returns (s': Ring)
    requires Sound(s, u) && s.flushers == [FIdle] && s.txWrittenIndex != -1
    ensures Sound(s', u) && s' == s.(flushers := [FLoaded(s.txWrittenIndex)])
  {
    Next(s, u, FLoad(0));
    s' := Load(s, 0);
  }

  lemma SwapIndexStep(s: Ring, u: Setup) returns (s': Ring)
    requires Sound(s, u) && |s.flushers| == 1 && s.flushers[0].FLoaded?
    ensures Sound(s', u)
    ensures var index := s.flushers[0].index;
            s' == if s.txWrittenIndex != index then s.(flushers := [FIdle])
                  else s.(flushers := [FTaken(index)], txWrittenIndex := -1, taker := Some(0))
  {
    Next(s, u, FSwap(0));
    s' := Swap(s, 0);
  }

  /** The second swap: all that waits becomes one claim. */
  lemma TakeAllStep(s: Ring, u: Setup) returns (s': Ring)
    requires Sound(s, u) && |s.flushers| == 1 && s.flushers[0].FTaken?
    ensures Sound(s', u) && s.txWritten > 0
    ensures var index := s.flushers[0].index;
            s' == s.(txWritten := 0, taker := None, claimed := s.written, frames := s'.frames,
                     claims := s.claims + [Claim(0, s.claimed, s.txWritten)],
                     flushers := [FMarking(|s.claims|, index, index, s.txWritten)])
    ensures Contents(s'.frames) == Contents(s.frames)
  {
    ReachableInv(s, u);
    assert FlusherOk(s, 0);
    Next(s, u, FTake(0));
    s' := TakeAll(s, 0);
  }

  lemma MarkStep(s: Ring, u: Setup) returns (s': Ring)
    requires Sound(s, u) && |s.flushers| == 1 && s.flushers[0].FMarking? && s.flushers[0].left > 0
    ensures Sound(s', u) && KeptAll(s, s') && s'.mb == s.mb && s'.log == s.log
    ensures var FMarking(c, index, t, left) := s.flushers[0];
            && 0 <= t < |s.status| && s'.status == s.status[t := SendRequest]
            && s'.flushers == [FMarking(c, index, NextSlot(t, s.n), left - 1)]
  {
    ReachableInv(s, u);
    var k := LoopFrame(s, 0);
    Next(s, u, FMark(0));
    s' := Mark(s, 0);
  }

  lemma MarkedStep(s: Ring, u: Setup) returns (s': Ring)
    requires Sound(s, u) && |s.flushers| == 1 && s.flushers[0].FMarking? && s.flushers[0].left <= 0
    ensures Sound(s', u) && s' == s.(flushers := [FSending(s.flushers[0].c, s.flushers[0].index)])
  {
    Next(s, u, FMark(0));
    s' := Mark(s, 0);
  }

  // ---------- the kernel's steps ----------

  /** The kernel is through with frame `k` exactly when it is one of those in its log. */
  lemma ThroughIffLogged(s: Ring, u: Setup, accepts: Payload -> bool, k: nat)
    requires Sound(s, u) && Sequential(s, accepts) && k < |s.frames|
    ensures Through(s.frames[k].phase) <==> k < |s.log|
    ensures k < |s.log| ==> s.log[k].payload == s.frames[k].payload && s.log[k].ok == s.frames[k].ok
  {
    ReachableInv(s, u);
    assert FrameOk(s, k);
    if k < |s.log| {
      assert s.log[k].frame == k;
    }
  }

  /** After the marking loop a claimed frame that is not completed is asked for. */
  lemma UnsentIsAskedFor(s: Ring, k: nat)
    requires Inv(s) && |s.flushers| == 1 && s.flushers[0].FSending?
    requires k < s.claimed && !Through(s.frames[k].phase)
    ensures s.frames[k].phase == Requested && Busy(s.status[Slot(k, s.n)])
  {
    assert FrameOk(s, k);
    assert FlusherOk(s, 0);
  }

  /** The status words ask for slot `i`: it is that of a claimed frame the kernel has not completed. */
  ghost predicate AskedFor(s: Ring, i: int) {
    exists k :: |s.log| <= k < s.claimed && Slot(k, s.n) == i
  }

  /** After the marking loop, and all through the send call, exactly the slots of
      the claimed frames from the kernel's place on ask to be sent. */
  lemma AskedForExactly(s: Ring, u: Setup, accepts: Payload -> bool, i: nat)
    requires Sound(s, u) && Sequential(s, accepts) && s.flushers[0].FSending? && i < |s.status|
    ensures s.status[i] == SendRequest <==> AskedFor(s, i)
  {
    ReachableInv(s, u);
    if s.status[i] == SendRequest {
      BusyFrame(s, i);
      ThroughIffLogged(s, u, accepts, s.owner[i]);
      assert Slot(s.owner[i], s.n) == i;
    }
    if AskedFor(s, i) {
      var k :| |s.log| <= k < s.claimed && Slot(k, s.n) == i;
      ThroughIffLogged(s, u, accepts, k);
      UnsentIsAskedFor(s, k);
    }
  }

  /** Slot `i` asks to be sent exactly while a claimed frame is not completed. */
  predicate Wanted(s: Ring, i: int) {
    0 <= i < |s.status| && (s.status[i] == SendRequest <==> |s.log| < s.claimed)
  }

  /** The kernel's place asks to be sent exactly while a claimed frame is not completed,
      also when the claim goes all the way round the ring. */
  lemma HeadIsWanted(s: Ring, u: Setup, accepts: Payload -> bool)
    requires Sound(s, u) && Sequential(s, accepts) && s.flushers[0].FSending?
    ensures Wanted(s, Slot(|s.log|, s.n))
  {
    ReachableInv(s, u);
    AskedForExactly(s, u, accepts, Slot(|s.log|, s.n));
  }

  /** What is asked for at the kernel's place is the next frame. */
  lemma HeadFrame(s: Ring, u: Setup, accepts: Payload -> bool)
    requires Sound(s, u) && Sequential(s, accepts) && s.flushers[0].FSending? && |s.log| < s.claimed
    ensures var i := Slot(|s.log|, s.n);
            && i < |s.owner| && i < |s.data| && i < |s.status|
            && s.owner[i] == |s.log| && Busy(s.status[i]) && s.frames[|s.log|].payload == s.data[i]
  {
    ReachableInv(s, u);
    ThroughIffLogged(s, u, accepts, |s.log|);
    UnsentIsAskedFor(s, |s.log|);
    assert FrameOk(s, |s.log|);
  }

  /** The kernel completes the frame at its place and moves on. */
  lemma CompleteStep(s: Ring, u: Setup, accepts: Payload -> bool) returns (s': Ring)
    requires Sound(s, u) && Sequential(s, accepts) && s.flushers[0].FSending? && |s.log| < s.claimed
    ensures Sound(s', u) && Sequential(s', accepts) && KeptAll(s, s') && s'.mb == s.mb && s'.flushers == s.flushers
    ensures var i := Slot(|s.log|, s.n);
            && i < |s.status| && i < |s.data| && s.data[i] == s.frames[|s.log|].payload
            && var ok := Fits(accepts, s.data[i]);
            && s'.status == s.status[i := if ok then Available else WrongFormat]
            && |s'.log| == |s.log| + 1 && OnWire(s'.log) == OnWire(s.log) + (if ok then [s.data[i]] else [])
            && Slot(|s'.log|, s.n) == NextSlot(i, s.n)
            && Wanted(s', NextSlot(i, s.n))
  {
    HeadFrame(s, u, accepts);
    var i := Slot(|s.log|, s.n);
    var ok := Fits(accepts, s.data[i]);
    SlotNext(|s.log|, s.n);
    Next(s, u, KComplete(i, ok));
    s' := Complete(s, i, ok);
    assert s'.log[..|s.log|] == s.log;
    HeadIsWanted(s', u, accepts);
  }

  lemma {:induction false} PassedConcat(accepts: Payload -> bool, ps: seq<Payload>, qs: seq<Payload>)
    ensures Passed(accepts, ps + qs) == Passed(accepts, ps) + Passed(accepts, qs)
  {
    if qs == [] {
      assert ps + qs == ps;
    } else {
      assert (ps + qs)[..|ps + qs| - 1] == ps + qs[..|qs| - 1];
      PassedConcat(accepts, ps, qs[..|qs| - 1]);
    }
  }

  /** What is on the wire is what the kernel accepts of the frames it has completed. */
  lemma {:induction false} OnWireIsPassed(log: seq<Completion>, accepts: Payload -> bool, ps: seq<Payload>)
    requires |log| == |ps|
    requires forall j :: 0 <= j < |log| ==> log[j].payload == ps[j] && log[j].ok == Fits(accepts, ps[j])
    ensures OnWire(log) == Passed(accepts, ps)
  {
    if log != [] {
      OnWireIsPassed(log[..|log| - 1], accepts, ps[..|log| - 1]);
    }
  }

  lemma WireIsPassed(s: Ring, u: Setup, accepts: Payload -> bool)
    requires Sound(s, u) && Sequential(s, accepts) && |s.log| <= s.claimed
    ensures OnWire(s.log) == Passed(accepts, Contents(s.frames)[..|s.log|])
  {
    forall j | 0 <= j < |s.log| ensures s.log[j].payload == Contents(s.frames)[j] {
      ThroughIffLogged(s, u, accepts, j);
    }
    OnWireIsPassed(s.log, accepts, Contents(s.frames)[..|s.log|]);
  }

  lemma WireGrows(s: Ring, s': Ring, u: Setup, accepts: Payload -> bool)
    requires Sound(s, u) && Sequential(s, accepts) && Sound(s', u) && Sequential(s', accepts)
    requires Kept(s, s') && |s.log| <= |s'.log| <= s.claimed
    ensures OnWire(s'.log) == OnWire(s.log) + Passed(accepts, Contents(s'.frames)[|s.log|..|s'.log|])
  {
    var ps := Contents(s.frames);
    WireIsPassed(s, u, accepts);
    WireIsPassed(s', u, accepts);
    PassedConcat(accepts, ps[..|s.log|], ps[|s.log|..|s'.log|]);
    assert ps[..|s.log|] + ps[|s.log|..|s'.log|] == ps[..|s'.log|];
  }

  /** The send call returns when nothing of the claim is left to complete. */
  lemma SentStep(s: Ring, u: Setup, accepts: Payload -> bool) returns (s': Ring)
    requires Sound(s, u) && Sequential(s, accepts) && |s.log| == s.claimed
    requires |s.flushers| == 1 && s.flushers[0].FSending?
    ensures Sound(s', u)
    ensures var c := s.flushers[0].c;
            c < |s.claims| && s' == s.(flushers := [FReleasing(c, s.flushers[0].index, s.claims[c].count, 0, [])])
  {
    ReachableInv(s, u);
    assert FlusherOk(s, 0);
    forall k | 0 <= k < |s.frames| && InClaim(s, s.flushers[0].c, k) ensures s.frames[k].phase != Requested {
      ThroughIffLogged(s, u, accepts, k);
    }
    Next(s, u, FSend(0));
    s' := Send(s, 0);
  }

  // ---------- giving back ----------

  lemma ReleaseStep(s: Ring, u: Setup) returns (s': Ring)
    requires Sound(s, u) && |s.flushers| == 1 && s.flushers[0].FReleasing? && s.flushers[0].left > 0
    ensures Sound(s', u) && KeptAll(s, s') && s'.status == s.status && s'.log == s.log
    ensures var FReleasing(c, t, left, flushed, errs) := s.flushers[0];
            && 0 <= t < |s.mb| == |s.status| && s'.mb == s.mb[t := false]
            && s'.flushers == [if s.lossDisabled && s.status[t] == WrongFormat
                               then FReleasing(c, NextSlot(t, s.n), left - 1, flushed, errs + [t])
                               else FReleasing(c, NextSlot(t, s.n), left - 1, flushed + 1, errs)]
  {
    ReachableInv(s, u);
    var k := LoopFrame(s, 0);
    Next(s, u, FRelease(0));
    s' := Release(s, 0);
  }

  lemma ReleasedStep(s: Ring, u: Setup) returns (s': Ring)
    requires Sound(s, u) && |s.flushers| == 1 && s.flushers[0].FReleasing? && s.flushers[0].left <= 0
    ensures Sound(s', u) && KeptAll(s, s') && s'.mb == s.mb && s'.status == s.status && s'.log == s.log
    ensures s'.flushers == [FIdle]
    ensures var c := s.flushers[0].c;
            && c < |s.claims|
            && Accounts(s', s.flushers[0].flushed, s.flushers[0].errs, s.claims[c].base,
                        s.claims[c].base + s.claims[c].count)
  {
    ReachableInv(s, u);
    assert FlusherOk(s, 0);
    Next(s, u, FRelease(0));
    s' := Release(s, 0);
  }

  /** The last claim ends with the last claimed frame. */
  lemma LastClaim(s: Ring, u: Setup)
    requires Sound(s, u) && |s.claims| > 0
    ensures var cl := s.claims[|s.claims| - 1]; cl.base + cl.count == s.claimed
  {
    ReachableInv(s, u);
  }

  /** Where each frame was refused exactly if it is not accepted, the refused slots are the bad ones. */
  lemma {:induction false} RefusedAreBad(frames: seq<Frame>, accepts: Payload -> bool, a: nat, b: nat, n: nat)
    requires a <= b <= |frames| && forall k :: a <= k < b ==> frames[k].ok == Fits(accepts, frames[k].payload)
    ensures Refused(true, frames, a, b, n) == BadSlots(accepts, Contents(frames)[a..b], a, n)
    decreases b
  {
    if a < b {
      RefusedAreBad(frames, accepts, a, b - 1, n);
      var ps := Contents(frames)[a..b];
      assert ps[..|ps| - 1] == Contents(frames)[a..b - 1];
      assert ps[|ps| - 1] == frames[b - 1].payload;
    }
  }

  /** On one thread the slots a flush reports are those of the frames the kernel does not accept. */
  lemma ReportedAreBad(s: Ring, u: Setup, accepts: Payload -> bool, a: nat)
    requires Sound(s, u) && Sequential(s, accepts) && a <= |s.log| == s.claimed
    ensures Refused(s.lossDisabled, s.frames, a, s.claimed, s.n) ==
            if s.lossDisabled then BadSlots(accepts, Contents(s.frames)[a..s.claimed], a, s.n) else []
  {
    if s.lossDisabled {
      forall k | a <= k < s.claimed ensures s.frames[k].ok == Fits(accepts, s.frames[k].payload) {
        ThroughIffLogged(s, u, accepts, k);
      }
      RefusedAreBad(s.frames, accepts, a, s.claimed, s.n);
    } else {
      NothingReported(s, a, s.claimed);
    }
  }
}
