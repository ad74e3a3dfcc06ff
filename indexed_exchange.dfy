/** The frame hand-off of main_v8.cpp and main_v4.cpp (the two files carry
    the same code): two slot vectors `g_yuvBuf[2]`, a write index and a read
    index that videoCallBack swaps after every accepted copy, the resolution
    of the last accepted frame, the `g_hasNewFrame` flag and `g_running`.
    The render loop takes the read index and the resolution under the lock
    and then shows the luma plane, the first width*height bytes of the slot. */
module IndexedExchange {
  import opened Common

  /** The globals the video callback and the render loop share. */
  datatype ExchangeState = ExchangeState(
    yuvBuf: seq<seq<UInt8>>,
    writeIdx: int,
    readIdx: int,
    width: int,
    height: int,
    hasNewFrame: bool,
    running: bool)

  /** What the render loop copies out under the lock: the stop signal, or
      the slot index and resolution (localIdx, localW, localH). */
  datatype Take = Stopped | Slot(idx: int, width: int, height: int)

  /** What one pass of the render loop does with a take: leave the loop,
      skip the frame, or show its luma plane. */
  datatype Cycle = Exit | Skip | Show(width: int, height: int, luma: seq<UInt8>)

  /** Kept by every operation: two slots, the indices are 0 and 1 in some
      order, and the readable slot holds a frame of the recorded resolution. */
  predicate Inv(s: ExchangeState) {
    |s.yuvBuf| == 2 &&
    0 <= s.writeIdx < 2 && 0 <= s.readIdx < 2 && s.writeIdx != s.readIdx &&
    DimsFit(s.width, s.height) &&
    |s.yuvBuf[s.readIdx]| == ExpectedLen(s.width, s.height)
  }

  /** The statics at program start. */
  function Initial(): (s: ExchangeState)
    ensures Inv(s) && !s.hasNewFrame && s.running
    ensures s.yuvBuf == [[], []] && s.writeIdx == 0 && s.readIdx == 1
  {
    ExchangeState([[], []], 0, 1, 0, 0, false, true)
  }

  /** The guard of videoCallBack: the reported length is the I420 size for
      the reported resolution and the pointer is not null. An accepted
      delivery of a non-negative resolution then holds at least the
      width*height luma plane that the render loop reads. */
  predicate Accepts(d: Delivery)
    requires d.WellFormed()
    ensures Accepts(d) ==> d.pBuffer.Some?
    ensures Accepts(d) && d.width * d.height >= 0 ==> d.width * d.height <= |d.pBuffer.value|
  {
    d.bufferLen == ExpectedLen(d.width, d.height) && d.pBuffer.Some?
  }

  /** videoCallBack: a rejected delivery changes nothing; an accepted one
      lands in the slot that was writable, which then becomes readable, while
      the slot that was readable becomes writable untouched. */
  function Publish(s: ExchangeState, d: Delivery): (t: ExchangeState)
    requires Inv(s) && d.WellFormed()
    ensures Inv(t)
    ensures !Accepts(d) ==> t == s
    ensures Accepts(d) ==>
      t.writeIdx == s.readIdx && t.readIdx == s.writeIdx &&
      t.yuvBuf[t.readIdx] == d.pBuffer.value && |t.yuvBuf[t.readIdx]| == d.bufferLen &&
      t.yuvBuf[t.writeIdx] == s.yuvBuf[s.readIdx] &&
      t.width == d.width && t.height == d.height &&
      t.hasNewFrame && t.running == s.running
  {
    if Accepts(d) then
      s.(yuvBuf := s.yuvBuf[s.writeIdx := d.pBuffer.value],
         writeIdx := s.readIdx, readIdx := s.writeIdx,
         width := d.width, height := d.height, hasNewFrame := true)
    else
      s
  }

  /** The render loop's critical section, entered once the wait has seen the
      flag set or the running flag cleared. */
  function TakeFrame(s: ExchangeState): (r: (ExchangeState, Take))
    requires Inv(s) && (s.hasNewFrame || !s.running)
    ensures Inv(r.0)
    ensures !s.running ==> r.0 == s && r.1 == Stopped
    ensures s.running ==>
      r.1 == Slot(s.readIdx, s.width, s.height) &&
      r.0 == s.(hasNewFrame := false)
    ensures r.1.Slot? ==>
      0 <= r.1.idx < 2 && |r.0.yuvBuf[r.1.idx]| == ExpectedLen(r.1.width, r.1.height)
  {
    if !s.running then (s, Stopped)
    else (s.(hasNewFrame := false), Slot(s.readIdx, s.width, s.height))
  }

  /** The guards after the critical section: a take with a negative index,
      a non-positive dimension or a slot shorter than width*height is
      skipped; otherwise the first width*height bytes are the Y plane. */
  function Luma(s: ExchangeState, t: Take): (c: Cycle)
    requires Inv(s)
    requires t.Slot? ==> t.idx < 2
    ensures c.Exit? <==> t.Stopped?
    ensures c.Show? <==>
      t.Slot? && 0 <= t.idx && t.width > 0 && t.height > 0 &&
      t.width * t.height <= |s.yuvBuf[t.idx]|
    ensures c.Show? ==>
      c.width == t.width && c.height == t.height &&
      c.luma == s.yuvBuf[t.idx][..t.width * t.height]
  {
    match t
    case Stopped => Exit
    case Slot(idx, w, h) =>
      if idx < 0 || w <= 0 || h <= 0 then Skip
      else if |s.yuvBuf[idx]| < w * h then Skip
      else Show(w, h, s.yuvBuf[idx][..w * h])
  }

  /** One pass of the render loop up to the Y plane. Because the readable
      slot always holds a frame of the recorded resolution, the index and
      size guards never fire: a frame is skipped exactly when a recorded
      dimension is not positive. */
  function RenderStep(s: ExchangeState): (r: (ExchangeState, Cycle))
    requires Inv(s) && (s.hasNewFrame || !s.running)
    ensures Inv(r.0) && r.0 == TakeFrame(s).0
    ensures r.1.Exit? <==> !s.running
    ensures r.1.Show? <==> s.running && s.width > 0 && s.height > 0
    ensures r.1.Show? ==>
      r.1.width == s.width && r.1.height == s.height &&
      r.1.luma == s.yuvBuf[s.readIdx][..s.width * s.height]
  {
    var (t, k) := TakeFrame(s);
    (t, Luma(t, k))
  }

  predicate AllWellFormed(ds: seq<Delivery>) {
    forall i :: 0 <= i < |ds| ==> ds[i].WellFormed()
  }

  /** A burst of video callbacks with no render pass in between. */
  function PublishAll(s: ExchangeState, ds: seq<Delivery>): (t: ExchangeState)
    requires Inv(s) && AllWellFormed(ds)
    ensures Inv(t)
    ensures t.running == s.running
    decreases |ds|
  {
    if ds == [] then s else Publish(PublishAll(s, ds[..|ds| - 1]), ds[|ds| - 1])
  }

  /** Deliveries that are all rejected leave every global as it was. */
  lemma {:induction false} RejectedDeliveriesChangeNothing(s: ExchangeState, ds: seq<Delivery>)
    requires Inv(s) && AllWellFormed(ds)
    requires forall i :: 0 <= i < |ds| ==> !Accepts(ds[i])
    ensures PublishAll(s, ds) == s
  {
    if ds != [] {
      RejectedDeliveriesChangeNothing(s, ds[..|ds| - 1]);
    }
  }

  /** Latest publish wins: after a burst, the readable slot holds the bytes
      of the last accepted delivery, the resolution is that delivery's, and
      the flag is set. */
  lemma {:induction false} LatestAcceptedIsReadable(s: ExchangeState, ds: seq<Delivery>, k: nat)
    requires Inv(s) && AllWellFormed(ds)
    requires k < |ds| && Accepts(ds[k])
    requires forall i :: k < i < |ds| ==> !Accepts(ds[i])
    ensures var t := PublishAll(s, ds);
      t.yuvBuf[t.readIdx] == ds[k].pBuffer.value &&
      t.width == ds[k].width && t.height == ds[k].height && t.hasNewFrame
  {
    var prefix := ds[..|ds| - 1];
    if k < |ds| - 1 {
      assert forall i :: k < i < |prefix| ==> prefix[i] == ds[i];
      LatestAcceptedIsReadable(s, prefix, k);
    }
  }

  /** What the render loop shows after a burst of deliveries is the luma
      plane of the last accepted one: never a mix of two frames, never an
      older frame. */
  lemma NewestFrameShown(s: ExchangeState, ds: seq<Delivery>, k: nat)
    requires Inv(s) && s.running && AllWellFormed(ds)
    requires k < |ds| && Accepts(ds[k]) && ds[k].width > 0 && ds[k].height > 0
    requires forall i :: k < i < |ds| ==> !Accepts(ds[i])
    ensures PublishAll(s, ds).hasNewFrame &&
      RenderStep(PublishAll(s, ds)).1 ==
        Show(ds[k].width, ds[k].height, ds[k].pBuffer.value[..ds[k].width * ds[k].height])
  {
    LatestAcceptedIsReadable(s, ds, k);
  }

  /** The slot index the render loop took stays unwritten across one more
      accepted callback (that callback writes the other slot) ... */
  lemma TakenSlotSurvivesOnePublish(s: ExchangeState, d: Delivery)
    requires Inv(s) && s.running && s.hasNewFrame && d.WellFormed()
    ensures TakeFrame(s).1.Slot? &&
      Publish(TakeFrame(s).0, d).yuvBuf[TakeFrame(s).1.idx] == s.yuvBuf[s.readIdx]
  {
  }

  /** ... but a second accepted callback writes exactly that slot, so a
      render pass still reading it after releasing the lock can see the
      newer frame being copied in. */
  lemma SecondPublishOverwritesTakenSlot(s: ExchangeState, d1: Delivery, d2: Delivery)
    requires Inv(s) && s.running && s.hasNewFrame
    requires d1.WellFormed() && d2.WellFormed() && Accepts(d1) && Accepts(d2)
    ensures TakeFrame(s).1.Slot? &&
      Publish(Publish(TakeFrame(s).0, d1), d2).yuvBuf[TakeFrame(s).1.idx] == d2.pBuffer.value
  {
  }

  /** The globals as a class: the two slots are a fixed array of vectors,
      the rest are fields the callback and the render loop assign. */
  class Exchange {
    const yuvBuf: array<seq<UInt8>>
    var writeIdx: int
    var readIdx: int
    var width: int
    var height: int
    var hasNewFrame: bool
    var running: bool

    function State(): ExchangeState
      reads this, yuvBuf
    {
      ExchangeState(yuvBuf[..], writeIdx, readIdx, width, height, hasNewFrame, running)
    }

    ghost predicate Valid()
      reads this, yuvBuf
    {
      yuvBuf.Length == 2 && Inv(State())
    }

    constructor ()
      ensures Valid() && fresh(yuvBuf)
      ensures State() == Initial()
    {
      yuvBuf := new seq<UInt8>[2](_ => []);
      writeIdx, readIdx := 0, 1;
      width, height := 0, 0;
      hasNewFrame, running := false, true;
    }

    /** videoCallBack: validate, record the resolution, resize the writable
        slot only if its size differs, copy, swap the indices, raise the flag. */
    method VideoCallBack(pBuffer: Option<seq<UInt8>>, bufferLen: int, width: int, height: int)
      requires Valid() && Delivery(pBuffer, bufferLen, width, height).WellFormed()
      modifies this, yuvBuf
      ensures Valid()
      ensures State() == Publish(old(State()), Delivery(pBuffer, bufferLen, width, height))
    {
      var expected := ExpectedLen(width, height);
      if bufferLen != expected || pBuffer.None? {
        return;
      }
      this.width := width;
      this.height := height;
      var dst := yuvBuf[writeIdx];
      ResizeThenCopy(dst, pBuffer.value, 0);
      if |dst| != bufferLen {
        dst := Resize(dst, bufferLen, 0);
      }
      dst := CopyInto(dst, pBuffer.value);
      yuvBuf[writeIdx] := dst;
      writeIdx, readIdx := readIdx, writeIdx;
      hasNewFrame := true;
    }

    /** The render loop's critical section after the wait returns. */
    method Take() returns (t: Take)
      requires Valid() && (hasNewFrame || !running)
      modifies this
      ensures Valid()
      ensures (State(), t) == TakeFrame(old(State()))
    {
      if !running {
        return Stopped;
      }
      t := Slot(readIdx, width, height);
      hasNewFrame := false;
    }

    /** The guards after the critical section and the Y-plane view. */
    /** The imperative form of Luma, as the render loop runs it. */
    method FrameView(t: Take) returns (c: Cycle)
      requires Valid() && (t.Slot? ==> t.idx < 2)
      ensures c == Luma(State(), t)
    {
      match t
      case Stopped =>
        c := Exit;
      case Slot(idx, w, h) =>
        if idx < 0 || w <= 0 || h <= 0 {
          c := Skip;
        } else if |yuvBuf[idx]| < w * h {
          c := Skip;
        } else {
          c := Show(w, h, yuvBuf[idx][..w * h]);
        }
    }

    /** The ESC key: `g_running.store(false)`. */
    method Stop()
      requires Valid()
      modifies this
      ensures Valid()
      ensures State() == old(State()).(running := false)
    {
      running := false;
    }
  }
}
