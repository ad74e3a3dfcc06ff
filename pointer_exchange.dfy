/** The frame hand-off of main_v3_fast.cpp: two vectors g_bufferA and
    g_bufferB, a write pointer and a read pointer to them, the resolution
    and the `g_hasNewFrame` flag. The callback always copies into the
    buffer behind the write pointer; the render loop, when the flag is set,
    swaps the two pointers and processes the buffer now behind the read
    pointer. */
module PointerExchange {
  import opened Common

  /** One `std::vector<char>`, g_bufferA or g_bufferB. */
  class ByteVector {
    var data: seq<UInt8>

    constructor ()
      ensures data == []
    {
      data := [];
    }
  }

  /** The globals seen through the two pointers: the contents of the buffer
      behind g_writeBuffer and of the one behind g_readBuffer. */
  datatype ExchangeState = ExchangeState(
    writeData: seq<UInt8>,
    readData: seq<UInt8>,
    frameWidth: int,
    frameHeight: int,
    hasNewFrame: bool)

  /** What a successful take hands to the renderer: the buffer's contents
      (processBuffer) and the resolution. */
  datatype Frame = Frame(data: seq<UInt8>, width: int, height: int)

  /** Kept by every operation: while a frame is flagged, the write buffer
      holds a frame of the recorded resolution. */
  predicate Inv(s: ExchangeState) {
    DimsFit(s.frameWidth, s.frameHeight) &&
    (s.hasNewFrame ==> |s.writeData| == ExpectedLen(s.frameWidth, s.frameHeight))
  }

  /** The globals at program start. */
  function Initial(): (s: ExchangeState)
    ensures Inv(s) && !s.hasNewFrame && s.writeData == [] && s.readData == []
  {
    ExchangeState([], [], 0, 0, false)
  }

  /** This callback tests the length only; it has no null check. When an
      accepted delivery does carry a buffer and the resolution is not
      negative, the buffer holds the width*height luma plane. */
  predicate Accepts(d: Delivery)
    requires d.WellFormed()
    ensures Accepts(d) && d.pBuffer.Some? && d.width * d.height >= 0 ==>
      d.width * d.height <= |d.pBuffer.value|
    ensures Accepts(d) ==> (d.bufferLen >= 0 <==> d.width * d.height >= 0)
  {
    d.bufferLen == ExpectedLen(d.width, d.height)
  }

  /** The callback copies from the pointer whenever the length matches, so
      the driver must then pass a buffer. */
  predicate Deliverable(d: Delivery) {
    d.WellFormed() && (Accepts(d) ==> d.pBuffer.Some?)
  }

  /** videoCallBack: a delivery of the wrong length changes nothing; an
      accepted one replaces the write buffer's contents, records the
      resolution and raises the flag, and leaves the read buffer alone. */
  function Publish(s: ExchangeState, d: Delivery): (t: ExchangeState)
    requires Inv(s) && Deliverable(d)
    ensures Inv(t)
    ensures !Accepts(d) ==> t == s
    ensures Accepts(d) ==>
      t.writeData == d.pBuffer.value && |t.writeData| == d.bufferLen &&
      t.readData == s.readData &&
      t.frameWidth == d.width && t.frameHeight == d.height && t.hasNewFrame
  {
    if Accepts(d) then
      s.(writeData := d.pBuffer.value, frameWidth := d.width, frameHeight := d.height,
         hasNewFrame := true)
    else
      s
  }

  /** The render loop's critical section after `wait_for` returns: with the
      flag set, swap the pointers and hand out the buffer that was being
      written, which holds a frame of the recorded resolution; on timeout,
      hand out nothing and change nothing. */
  function TakeFrame(s: ExchangeState): (r: (ExchangeState, Option<Frame>))
    requires Inv(s)
    ensures Inv(r.0)
    ensures !s.hasNewFrame ==> r.0 == s && r.1 == None
    ensures s.hasNewFrame ==>
      r.1 == Some(Frame(s.writeData, s.frameWidth, s.frameHeight)) &&
      r.0.readData == s.writeData && r.0.writeData == s.readData &&
      r.0.frameWidth == s.frameWidth && r.0.frameHeight == s.frameHeight &&
      !r.0.hasNewFrame
    ensures r.1.Some? ==> |r.1.value.data| == ExpectedLen(r.1.value.width, r.1.value.height)
  {
    if s.hasNewFrame then
      (s.(writeData := s.readData, readData := s.writeData, hasNewFrame := false),
       Some(Frame(s.writeData, s.frameWidth, s.frameHeight)))
    else
      (s, None)
  }

  /** The render guard: a frame is drawn only when a buffer was handed out
      and both dimensions are positive. */
  predicate Renders(f: Option<Frame>) {
    f.Some? && f.value.width > 0 && f.value.height > 0
  }

  /** One pass of the render loop up to the gray frame. The loop reads
      width*height bytes with no size check; the invariant makes that read
      stay inside the buffer, so the gray frame is the luma plane of the
      newest accepted frame. */
  function RenderStep(s: ExchangeState): (r: (ExchangeState, Option<seq<UInt8>>))
    requires Inv(s)
    ensures Inv(r.0) && r.0 == TakeFrame(s).0
    ensures r.1.Some? <==> s.hasNewFrame && s.frameWidth > 0 && s.frameHeight > 0
    ensures r.1.Some? ==> r.1.value == s.writeData[..s.frameWidth * s.frameHeight]
  {
    var (t, f) := TakeFrame(s);
    if Renders(f) then (t, Some(f.value.data[..f.value.width * f.value.height]))
    else (t, None)
  }

  predicate AllDeliverable(ds: seq<Delivery>) {
    forall i :: 0 <= i < |ds| ==> Deliverable(ds[i])
  }

  /** A burst of video callbacks with no take in between. */
  function PublishAll(s: ExchangeState, ds: seq<Delivery>): (t: ExchangeState)
    requires Inv(s) && AllDeliverable(ds)
    ensures Inv(t)
    ensures t.readData == s.readData
    decreases |ds|
  {
    if ds == [] then s else Publish(PublishAll(s, ds[..|ds| - 1]), ds[|ds| - 1])
  }

  /** Deliveries that are all rejected leave every global as it was. */
  lemma {:induction false} RejectedDeliveriesChangeNothing(s: ExchangeState, ds: seq<Delivery>)
    requires Inv(s) && AllDeliverable(ds)
    requires forall i :: 0 <= i < |ds| ==> !Accepts(ds[i])
    ensures PublishAll(s, ds) == s
  {
    if ds != [] {
      RejectedDeliveriesChangeNothing(s, ds[..|ds| - 1]);
    }
  }

  /** Latest wins: after a burst, only the last accepted delivery is left in
      the write buffer, with its resolution and the flag set. */
  lemma {:induction false} LatestAcceptedInWriteBuffer(s: ExchangeState, ds: seq<Delivery>, k: nat)
    requires Inv(s) && AllDeliverable(ds)
    requires k < |ds| && Accepts(ds[k])
    requires forall i :: k < i < |ds| ==> !Accepts(ds[i])
    ensures var t := PublishAll(s, ds);
      t.writeData == ds[k].pBuffer.value &&
      t.frameWidth == ds[k].width && t.frameHeight == ds[k].height && t.hasNewFrame
  {
    var prefix := ds[..|ds| - 1];
    if k < |ds| - 1 {
      assert forall i :: k < i < |prefix| ==> prefix[i] == ds[i];
      LatestAcceptedInWriteBuffer(s, prefix, k);
    }
  }

  /** The take after a burst hands out exactly the last accepted delivery. */
  lemma NewestFrameTaken(s: ExchangeState, ds: seq<Delivery>, k: nat)
    requires Inv(s) && AllDeliverable(ds)
    requires k < |ds| && Accepts(ds[k])
    requires forall i :: k < i < |ds| ==> !Accepts(ds[i])
    ensures TakeFrame(PublishAll(s, ds)).1 ==
      Some(Frame(ds[k].pBuffer.value, ds[k].width, ds[k].height))
  {
    LatestAcceptedInWriteBuffer(s, ds, k);
  }

  /** The buffer a take hands out is behind the read pointer, and no number
      of later callbacks writes it before the next take. */
  lemma {:induction false} TakenFrameUntouchedByPublishes(s: ExchangeState, ds: seq<Delivery>)
    requires Inv(s) && s.hasNewFrame && AllDeliverable(ds)
    ensures PublishAll(TakeFrame(s).0, ds).readData == TakeFrame(s).1.value.data
  {
  }

  /** The globals as a class: the two vectors are objects, the two pointers
      are fields that refer to them. */
  class Exchange {
    const bufferA: ByteVector
    const bufferB: ByteVector
    var writeBuffer: ByteVector
    var readBuffer: ByteVector
    var frameWidth: int
    var frameHeight: int
    var hasNewFrame: bool

    function State(): ExchangeState
      reads this, writeBuffer, readBuffer
    {
      ExchangeState(writeBuffer.data, readBuffer.data, frameWidth, frameHeight, hasNewFrame)
    }

    /** The two pointers refer to different buffers, A and B in some order. */
    ghost predicate Valid()
      reads this, bufferA, bufferB, writeBuffer, readBuffer
    {
      bufferA != bufferB &&
      ((writeBuffer == bufferA && readBuffer == bufferB) ||
       (writeBuffer == bufferB && readBuffer == bufferA)) &&
      Inv(State())
    }

    constructor ()
      ensures Valid() && fresh(bufferA) && fresh(bufferB)
      ensures writeBuffer == bufferA && readBuffer == bufferB
      ensures State() == Initial()
    {
      var a := new ByteVector();
      var b := new ByteVector();
      bufferA, bufferB := a, b;
      writeBuffer, readBuffer := a, b;
      frameWidth, frameHeight, hasNewFrame := 0, 0, false;
    }

    /** videoCallBack: on a matching length, resize the write buffer only if
        its size differs, copy, record the resolution, raise the flag. */
    method VideoCallBack(pBuffer: Option<seq<UInt8>>, bufferLen: int, width: int, height: int)
      requires Valid() && Deliverable(Delivery(pBuffer, bufferLen, width, height))
      modifies this, writeBuffer
      ensures Valid()
      ensures writeBuffer == old(writeBuffer) && readBuffer == old(readBuffer)
      ensures State() == Publish(old(State()), Delivery(pBuffer, bufferLen, width, height))
    {
      if bufferLen == ExpectedLen(width, height) {
        ResizeThenCopy(writeBuffer.data, pBuffer.value, 0);
        if |writeBuffer.data| != bufferLen {
          writeBuffer.data := Resize(writeBuffer.data, bufferLen, 0);
        }
        writeBuffer.data := CopyInto(writeBuffer.data, pBuffer.value);
        frameWidth := width;
        frameHeight := height;
        hasNewFrame := true;
      }
    }

    /** The render loop's critical section: with a frame flagged, swap the
        pointers and hand out the buffer now behind the read pointer;
        otherwise hand out null and leave everything as it was. */
    method Take() returns (processBuffer: ByteVector?, width: int, height: int)
      requires Valid()
      modifies this
      ensures Valid()
      ensures old(hasNewFrame) ==>
        processBuffer == old(writeBuffer) && processBuffer == readBuffer &&
        writeBuffer == old(readBuffer)
      ensures !old(hasNewFrame) ==>
        processBuffer == null && width == 0 && height == 0 &&
        writeBuffer == old(writeBuffer) && readBuffer == old(readBuffer)
      ensures State() == TakeFrame(old(State())).0
      ensures (if processBuffer == null then None else Some(Frame(processBuffer.data, width, height)))
        == TakeFrame(old(State())).1
    {
      processBuffer, width, height := null, 0, 0;
      if hasNewFrame {
        writeBuffer, readBuffer := readBuffer, writeBuffer;
        processBuffer := readBuffer;
        width := frameWidth;
        height := frameHeight;
        hasNewFrame := false;
      }
    }

    /** The imperative form of the render guard in RenderStep: the gray
        frame over the first width*height bytes of the handed-out buffer. */
    method GrayFrame(processBuffer: ByteVector?, width: int, height: int) returns (gray: Option<seq<UInt8>>)
      requires processBuffer != null && width > 0 && height > 0 ==>
        width * height <= |processBuffer.data|
      ensures gray.Some? <==> processBuffer != null && width > 0 && height > 0
      ensures gray.Some? ==> gray.value == processBuffer.data[..width * height]
    {
      if processBuffer != null && width > 0 && height > 0 {
        gray := Some(processBuffer.data[..width * height]);
      } else {
        gray := None;
      }
    }

    /** One pass of the render loop: the take always leaves GrayFrame's
        precondition met, so the unchecked read stays in bounds. */
    method NextGrayFrame() returns (gray: Option<seq<UInt8>>)
      requires Valid()
      modifies this
      ensures Valid()
      ensures (State(), gray) == RenderStep(old(State()))
    {
      var buf, w, h := Take();
      gray := GrayFrame(buf, w, h);
    }
  }
}
