/** The lock-free transmit ring of zsocket.go: one producer in `CopyToBuffer`, any
    number of flushers in `FlushFrames`, and the kernel, interleaved at every
    atomic operation on the shared counters and the per-frame flags.

    Assumed of the kernel: `Poll` and `Sendto` succeed, a frame whose status asks
    for it is completed at some time, and `Sendto` returns only when the frames
    its caller has requested are completed. */
module TxRing {
  import opened Wire

  type Payload = seq<byte>

  /** `tp_status` of a frame, as far as the code looks at it. */
  datatype Status = Available | SendRequest | Sending | WrongFormat

  predicate Busy(st: Status) {
    st == SendRequest || st == Sending
  }

  /** Where the producer is: the slot it works on once it has one. */
  datatype Producer =
    | PIdle              // outside CopyToBuffer
    | PChecked           // the ring was not full
    | PLoaded(i: int)    // txIndex read
    | PClaimed(i: int)   // txIndex moved on: slot i is the producer's to wait for
    | PReady(i: int)     // the kernel does not want slot i
    | PHeld(i: int)      // the flag of slot i is taken
    | PFilled(i: int)    // the frame is copied
    | PCounted(i: int)   // txWritten went from 0 to 1: i is still to be published

  /** Where a flusher is; `c` numbers its claim, `t` is its loop's slot, `left`
      what its loop has still to do, `flushed` and `errs` what it will return. */
  datatype Flusher =
    | FIdle
    | FLoaded(index: int)
    | FTaken(index: int)  // txWrittenIndex swapped for -1
    | FMarking(c: nat, index: int, t: int, left: int)
    | FSending(c: nat, index: int)
    | FReleasing(c: nat, t: int, left: int, flushed: nat, errs: seq<int>)

  // ---------- history: what happened to each written frame ----------

  datatype Phase = Held | Written | Claimed | Requested | Completed | Released

  /** Frame number k of the run: its payload, how far it got, the claim it is in,
      its place in the log of completions and how the kernel completed it. */
  datatype Frame = Frame(payload: Payload, phase: Phase, claim: nat, doneAt: nat, ok: bool)

  datatype Claim = Claim(who: nat, base: nat, count: int)

  /** The kernel is through with a frame: it went out, or its format was refused. */
  datatype Completion = Completion(frame: nat, payload: Payload, ok: bool)

  /** What `FlushFrames` returns: how many went well, and the slots that did not. */
  datatype Flushed = Flushed(count: nat, errs: seq<int>)

  datatype Ring = Ring(
    n: nat,
    lossDisabled: bool,
    txIndex: int,
    txWritten: int,
    txWrittenIndex: int,
    mb: seq<bool>,
    status: seq<Status>,
    data: seq<Payload>,
    producer: Producer,
    flushers: seq<Flusher>,
    // history
    owner: seq<nat>,            // the last frame to take each slot
    frames: seq<Frame>,
    written: nat,               // frames counted by the producer
    claimed: nat,               // frames counted by a flusher
    claims: seq<Claim>,
    taker: Option<nat>,         // the flusher between its two swaps
    log: seq<Completion>,
    results: map<nat, Flushed>) // what the flush of each claim returned

  /** A socket's ring: its frames, its flushing threads, and whether the kernel
      reports frames it refuses. */
  datatype Setup = Setup(frameNum: nat, flushers: nat, lossDisabled: bool)

  function Initial(u: Setup): Ring {
    var n := u.frameNum;
    Ring(n, u.lossDisabled, 0, 0, -1, seq(n, _ => false), seq(n, _ => Available), seq(n, _ => []), PIdle,
         seq(u.flushers, _ => FIdle), seq(n, _ => 0), [], 0, 0, [], None, [], map[])
  }

  /** A frame whose flag is just taken, and one that is just filled. */
  function NewFrame(payload: Payload): Frame {
    Frame(payload, Held, 0, 0, false)
  }

  datatype Action =
    | PCheck | PLoad | PSwap | PPoll | PTake | PFill(payload: Payload) | PCount | PPublish
    | FLoad(f: nat) | FSwap(f: nat) | FTake(f: nat) | FMark(f: nat) | FSend(f: nat) | FRelease(f: nat)
    | KStart(slot: nat) | KComplete(slot: nat, ok: bool)

  // ---------- steps ----------

  /** Slot `i` set to `x`; indices are always in range in a reachable ring. */
  function Put<T>(s: seq<T>, i: int, x: T): seq<T> {
    if 0 <= i < |s| then s[i := x] else s
  }

  predicate Is<T(==)>(s: seq<T>, i: int, x: T) {
    0 <= i < |s| && s[i] == x
  }

  function OwnerOf(s: Ring, i: int): int {
    if 0 <= i < |s.owner| then s.owner[i] else -1
  }

  function Phased(s: Ring, k: int, p: Phase): seq<Frame> {
    if 0 <= k < |s.frames| then s.frames[k := s.frames[k].(phase := p)] else s.frames
  }

  function NextSlot(t: int, n: nat): int {
    if n == 0 then 0 else (t + 1) % n
  }

  // A step that is not its thread's turn does nothing.

  /** getFreeTx: the ring is full when all slots wait for a flush. */
  function Check(s: Ring): Ring {
    if !s.producer.PIdle? || s.txWritten == s.n then s else s.(producer := PChecked)
  }

  function LoadIndex(s: Ring): Ring {
    if s.producer.PChecked? then s.(producer := PLoaded(s.txIndex)) else s
  }

  function SwapIndex(s: Ring): Ring {
    if !s.producer.PLoaded? then s
    else
      var i := s.producer.i;
      if s.txIndex != i then s.(producer := PChecked)
      else s.(txIndex := NextSlot(i, s.n), producer := PClaimed(i))
  }

  function PollSlot(s: Ring): Ring {
    if !s.producer.PClaimed? then s
    else
      var i := s.producer.i;
      if Is(s.status, i, SendRequest) || Is(s.status, i, Sending) then s else s.(producer := PReady(i))
  }

  function TakeFlag(s: Ring): Ring {
    if !s.producer.PReady? || !Is(s.mb, s.producer.i, false) then s
    else
      var i := s.producer.i;
      s.(mb := Put(s.mb, i, true),
         producer := PHeld(i),
         owner := Put(s.owner, i, |s.frames|),
         frames := s.frames + [NewFrame([])])
  }

  function Fill(s: Ring, payload: Payload): Ring {
    if !s.producer.PHeld? then s
    else
      var i := s.producer.i;
      s.(data := Put(s.data, i, payload),
         producer := PFilled(i),
         frames := Put(s.frames, s.written, NewFrame(payload)))
  }

  function Count(s: Ring): Ring {
    if !s.producer.PFilled? then s
    else
      s.(txWritten := s.txWritten + 1,
         producer := if s.txWritten + 1 == 1 then PCounted(s.producer.i) else PIdle,
         frames := Phased(s, s.written, Written),
         written := s.written + 1)
  }

  function Publish(s: Ring): Ring {
    if s.producer.PCounted? then s.(txWrittenIndex := s.producer.i, producer := PIdle) else s
  }

  /** The written frames from number `first` on become part of claim `c`. */
  function ClaimAll(frames: seq<Frame>, first: nat, c: nat): (r: seq<Frame>)
    ensures |r| == |frames|
    ensures forall k :: 0 <= k < |frames| ==>
      r[k] == if k < first || frames[k].phase == Held then frames[k] else frames[k].(phase := Claimed, claim := c)
  {
    seq(|frames|, k requires 0 <= k < |frames| =>
      if k < first || frames[k].phase == Held then frames[k]
      else frames[k].(phase := Claimed, claim := c))
  }

  predicate InClaim(s: Ring, c: nat, k: int) {
    c < |s.claims| && s.claims[c].base <= k < s.claims[c].base + s.claims[c].count
  }

  /** `Sendto` may return: the kernel is through with all frames of the claim. */
  predicate SendDone(s: Ring, c: nat) {
    c < |s.claims| &&
    forall k :: 0 <= k < |s.frames| && InClaim(s, c, k) ==> s.frames[k].phase != Requested
  }

  function Moved(s: Ring, f: nat, fl: Flusher): Ring
    requires f < |s.flushers|
  {
    s.(flushers := s.flushers[f := fl])
  }

  /** FlushFrames: nothing to do when no index is published. */
  function Load(s: Ring, f: nat): Ring
    requires f < |s.flushers|
  {
    if !s.flushers[f].FIdle? || s.txWrittenIndex == -1 then s else Moved(s, f, FLoaded(s.txWrittenIndex))
  }

  function Swap(s: Ring, f: nat): Ring
    requires f < |s.flushers|
  {
    if !s.flushers[f].FLoaded? then s
    else if s.txWrittenIndex != s.flushers[f].index then Moved(s, f, FIdle)
    else Moved(s, f, FTaken(s.flushers[f].index)).(txWrittenIndex := -1, taker := Some(f))
  }

  function TakeAll(s: Ring, f: nat): Ring
    requires f < |s.flushers|
  {
    if !s.flushers[f].FTaken? then s
    else
      var index := s.flushers[f].index;
      Moved(s, f, FMarking(|s.claims|, index, index, s.txWritten)).(
        txWritten := 0,
        taker := None,
        frames := ClaimAll(s.frames, s.claimed, |s.claims|),
        claims := s.claims + [Claim(f, s.claimed, s.txWritten)],
        claimed := s.written)
  }

  function Mark(s: Ring, f: nat): Ring
    requires f < |s.flushers|
  {
    if !s.flushers[f].FMarking? then s
    else
      var FMarking(c, index, t, left) := s.flushers[f];
      if left <= 0 then Moved(s, f, FSending(c, index))
      else Moved(s, f, FMarking(c, index, NextSlot(t, s.n), left - 1)).(
             status := Put(s.status, t, SendRequest),
             frames := Phased(s, OwnerOf(s, t), Requested))
  }

  function Send(s: Ring, f: nat): Ring
    requires f < |s.flushers|
  {
    if !s.flushers[f].FSending? || !SendDone(s, s.flushers[f].c) then s
    else
      var FSending(c, index) := s.flushers[f];
      Moved(s, f, FReleasing(c, index, s.claims[c].count, 0, []))
  }

  /** A refused frame is an error only where the kernel reports refusals. */
  function Release(s: Ring, f: nat): Ring
    requires f < |s.flushers|
  {
    if !s.flushers[f].FReleasing? then s
    else
      var FReleasing(c, t, left, flushed, errs) := s.flushers[f];
      if left <= 0 then Moved(s, f, FIdle).(results := s.results[c := Flushed(flushed, errs)])
      else
        var bad := s.lossDisabled && Is(s.status, t, WrongFormat);
        var fl := FReleasing(c, NextSlot(t, s.n), left - 1,
                             if bad then flushed else flushed + 1, if bad then errs + [t] else errs);
        Moved(s, f, fl).(
          mb := Put(s.mb, t, false),
          frames := Phased(s, OwnerOf(s, t), Released))
  }

  function Start(s: Ring, i: nat): Ring {
    if Is(s.status, i, SendRequest) then s.(status := s.status[i := Sending]) else s
  }

  /** The kernel is through with a requested frame: sent, or refused for its format. */
  function Complete(s: Ring, i: nat, ok: bool): Ring {
    var k := OwnerOf(s, i);
    if (Is(s.status, i, SendRequest) || Is(s.status, i, Sending)) && i < |s.data| && 0 <= k < |s.frames| then
      s.(status := s.status[i := if ok then Available else WrongFormat],
         frames := s.frames[k := s.frames[k].(phase := Completed, doneAt := |s.log|, ok := ok)],
         log := s.log + [Completion(k, s.data[i], ok)])
    else s
  }

  function Step(s: Ring, a: Action): Ring {
    match a
    case PCheck => Check(s)
    case PLoad => LoadIndex(s)
    case PSwap => SwapIndex(s)
    case PPoll => PollSlot(s)
    case PTake => TakeFlag(s)
    case PFill(payload) => Fill(s, payload)
    case PCount => Count(s)
    case PPublish => Publish(s)
    case FLoad(f) => if f < |s.flushers| then Load(s, f) else s
    case FSwap(f) => if f < |s.flushers| then Swap(s, f) else s
    case FTake(f) => if f < |s.flushers| then TakeAll(s, f) else s
    case FMark(f) => if f < |s.flushers| then Mark(s, f) else s
    case FSend(f) => if f < |s.flushers| then Send(s, f) else s
    case FRelease(f) => if f < |s.flushers| then Release(s, f) else s
    case KStart(i) => Start(s, i)
    case KComplete(i, ok) => Complete(s, i, ok)
  }

  // ---------- runs ----------

  ghost predicate IsStep(actions: seq<Action>, trace: seq<Ring>, i: nat)
    requires i < |actions| < |trace|
  {
    trace[i + 1] == Step(trace[i], actions[i])
  }

  /** The states that a list of actions goes through. */
  ghost predicate IsTrace(actions: seq<Action>, trace: seq<Ring>) {
    |trace| == |actions| + 1 && forall i :: 0 <= i < |actions| ==> IsStep(actions, trace, i)
  }

  lemma TraceStep(actions: seq<Action>, trace: seq<Ring>, i: nat)
    requires IsTrace(actions, trace) && i < |actions|
    ensures trace[i + 1] == Step(trace[i], actions[i])
  {
    assert IsStep(actions, trace, i);
  }

  /** Some interleaving goes from `s` to `s'`. */
  ghost predicate LeadsTo(s: Ring, s': Ring) {
    exists actions, trace {:trigger IsTrace(actions, trace)} ::
      IsTrace(actions, trace) && trace[0] == s && trace[|actions|] == s'
  }

  /** Some interleaving of one producer, the flushers and the kernel ends in `s`. */
  ghost predicate Reachable(s: Ring, u: Setup) {
    LeadsTo(Initial(u), s)
  }

  lemma LeadsNowhere(s: Ring)
    ensures LeadsTo(s, s)
  {
    assert IsTrace([], [s]);
  }

  lemma LeadsToStep(s: Ring, s': Ring, a: Action)
    requires LeadsTo(s, s')
    ensures LeadsTo(s, Step(s', a))
  {
    var actions, trace :| IsTrace(actions, trace) && trace[0] == s && trace[|actions|] == s';
    var actions', trace' := actions + [a], trace + [Step(s', a)];
    forall i | 0 <= i < |actions'| ensures IsStep(actions', trace', i) {
      if i < |actions| {
        assert IsStep(actions, trace, i);
      }
    }
    assert IsTrace(actions', trace');
  }
}
