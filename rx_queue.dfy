/**
 * The reception queue the ISR fills and read() drains, one per interface: a
 * frame is appended only while the queue holds at most Frame_Capacity frames
 * (the guard is `<=`, so the queue can reach Frame_Capacity + 1 frames);
 * otherwise the frame is dropped and the interface's 32-bit discard counter
 * is incremented.
 */
module RxQueue {
  import opened CanTypes

  const Uint32Range: nat := 0x1_0000_0000

  /** The ISR's capacity guard. */
  predicate HasRoom(q: seq<Frame>) {
    |q| <= FrameCapacity
  }

  /** The queue after the ISR has been handed frame `f`. */
  function Admit(q: seq<Frame>, f: Frame): seq<Frame> {
    if HasRoom(q) then q + [f] else q
  }

  /** The discard counter after the ISR has been handed a frame: uint32 increment when the queue is full. */
  function CountDiscard(q: seq<Frame>, count: nat): (r: nat)
    requires count < Uint32Range
    ensures r < Uint32Range
    ensures HasRoom(q) ==> r == count
    ensures !HasRoom(q) ==> (r + Uint32Range - count) % Uint32Range == 1
  {
    if HasRoom(q) then count else (count + 1) % Uint32Range
  }

  /** The queue after the ISR has been handed `fs` in order, with no read in between. */
  function AdmitAll(q: seq<Frame>, fs: seq<Frame>): seq<Frame>
    decreases |fs|
  {
    if |fs| == 0 then q else AdmitAll(Admit(q, fs[0]), fs[1..])
  }

  /** Frames of `fs` that AdmitAll drops. */
  function DroppedCount(q: seq<Frame>, fs: seq<Frame>): nat
    decreases |fs|
  {
    if |fs| == 0 then 0
    else (if HasRoom(q) then 0 else 1) + DroppedCount(Admit(q, fs[0]), fs[1..])
  }

  /** Room left under the guard: how many more frames the ISR will accept. */
  function Room(q: seq<Frame>): nat {
    if |q| <= FrameCapacity then FrameCapacity + 1 - |q| else 0
  }

  /**
   * One reception either appends exactly `f` at the tail, keeping every queued
   * frame in place, or leaves the queue as it was; the queue never grows past
   * Frame_Capacity + 1 frames.
   */
  lemma AdmitAppendsOrDrops(q: seq<Frame>, f: Frame)
    requires |q| <= FrameCapacity + 1
    ensures |Admit(q, f)| <= FrameCapacity + 1
    ensures Admit(q, f) == q || (|Admit(q, f)| == |q| + 1 && Admit(q, f)[..|q|] == q && Admit(q, f)[|q|] == f)
    ensures Admit(q, f) == q <==> !HasRoom(q)
  {
  }

  /**
   * A burst of receptions keeps the frames already queued, appends the oldest
   * frames of the burst up to the room under the guard and drops the newest
   * ones, counting each dropped frame.
   */
  lemma {:induction false} AdmitAllKeepsOldest(q: seq<Frame>, fs: seq<Frame>)
    ensures var n := if |fs| < Room(q) then |fs| else Room(q);
            && AdmitAll(q, fs) == q + fs[..n]
            && DroppedCount(q, fs) == |fs| - n
    decreases |fs|
  {
    if |fs| > 0 {
      var q' := Admit(q, fs[0]);
      AdmitAllKeepsOldest(q', fs[1..]);
      var n' := if |fs| - 1 < Room(q') then |fs| - 1 else Room(q');
      if HasRoom(q) {
        assert Room(q') == Room(q) - 1;
        assert q' + fs[1..][..n'] == q + fs[..n' + 1];
      } else {
        assert Room(q) == 0 && Room(q') == 0;
      }
    }
  }

  /** The discard counter after the ISR has been handed `fs` in order. */
  function CountAll(q: seq<Frame>, fs: seq<Frame>, count: nat): nat
    requires count < Uint32Range
    decreases |fs|
  {
    if |fs| == 0 then count else CountAll(Admit(q, fs[0]), fs[1..], CountDiscard(q, count))
  }

  /** The queue and the frames dropped together account for every frame of a burst. */
  lemma {:induction false} NothingLost(q: seq<Frame>, fs: seq<Frame>)
    ensures |AdmitAll(q, fs)| + DroppedCount(q, fs) == |q| + |fs|
  {
    AdmitAllKeepsOldest(q, fs);
  }

  /** The counter advances by the number of dropped frames, wrapping at 2^32. */
  lemma {:induction false} CountAllWraps(q: seq<Frame>, fs: seq<Frame>, count: nat)
    requires count < Uint32Range
    ensures CountAll(q, fs, count) == (count + DroppedCount(q, fs)) % Uint32Range
    decreases |fs|
  {
    if |fs| > 0 {
      CountAllWraps(Admit(q, fs[0]), fs[1..], CountDiscard(q, count));
    }
  }
}
