/** The stateful half of client/components/CameraView.js: the refs and state
    the component keeps between animation frames (`lastCaptureRef`, the
    canvas, `chromaKeyEnabled`, `chromaIntensity`, `backgroundImage`), one
    animation-frame tick, and the capture effect, an edge-triggered latch. */
module CameraView {
  import opened Common
  import opened ChromaKey

  /** What `onPhotoCapture` receives: `canvas.toDataURL('image/jpeg', 0.95)`
      of the pixels on the canvas at that moment (the encoding is not modelled). */
  datatype Photo = JpegDataUrl(pixels: seq<Byte>, width: nat, height: nat)

  /** One decoded webcam frame, `videoWidth × videoHeight` RGBA pixels. */
  datatype VideoFrame = VideoFrame(width: nat, height: nat, data: seq<Byte>)

  predicate FrameWellFormed(f: VideoFrame) {
    |f.data| == 4 * (f.width * f.height)
  }

  /** What the canvas shows after a tick on frame `f`: the mirrored frame,
      keyed when the effect is on. */
  function DisplayedFrame(f: VideoFrame, keying: bool, i: Intensity,
                          image: Option<BgImage>, colour: Option<string>): (d: seq<Byte>)
    requires FrameWellFormed(f)
    requires image.Some? ==> BgWellFormed(image.value)
    ensures |d| == |f.data|
  {
    var mirrored := Mirror(f.data, f.width, f.height);
    if keying then KeyedFrame(mirrored, f.width, f.height, i, image, colour) else mirrored
  }

  /** With keying off, mirroring the displayed frame gives back the camera frame. */
  lemma UnkeyedDisplayUnmirrors(f: VideoFrame, i: Intensity, image: Option<BgImage>, colour: Option<string>)
    requires FrameWellFormed(f)
    requires image.Some? ==> BgWellFormed(image.value)
    ensures Mirror(DisplayedFrame(f, false, i, image, colour), f.width, f.height) == f.data
  {
    MirrorTwice(f.data, f.width, f.height);
  }

  // ---------------------------------------------------------------------
  // The capture latch
  // ---------------------------------------------------------------------

  datatype LatchOutcome = LatchOutcome(latch: bool, fires: bool)

  /** One run of the capture effect with the current `isCapturing`: fire and
      set the latch on a rising edge, clear the latch when the signal drops. */
  function LatchStep(latch: bool, isCapturing: bool): (o: LatchOutcome)
    ensures o.fires <==> isCapturing && !latch
    ensures o.latch == isCapturing
  {
    if isCapturing && !latch then LatchOutcome(true, true)
    else if !isCapturing && latch then LatchOutcome(false, false)
    else LatchOutcome(latch, false)
  }

  /** How many stills the effect hands out when it runs once per signal in `signals`. */
  function Captures(latch: bool, signals: seq<bool>): nat
    decreases |signals|
  {
    if signals == [] then 0
    else
      var o := LatchStep(latch, signals[0]);
      (if o.fires then 1 else 0) + Captures(o.latch, signals[1..])
  }

  /** The number of false-to-true changes of the signal, `prev` being its value before the run. */
  function RisingEdges(prev: bool, signals: seq<bool>): nat
    decreases |signals|
  {
    if signals == [] then 0
    else (if signals[0] && !prev then 1 else 0) + RisingEdges(signals[0], signals[1..])
  }

  /** The effect fires exactly once per rising edge of `isCapturing`. */
  lemma {:induction false} CapturesAreRisingEdges(latch: bool, signals: seq<bool>)
    ensures Captures(latch, signals) == RisingEdges(latch, signals)
    decreases |signals|
  {
    if signals != [] {
      CapturesAreRisingEdges(signals[0], signals[1..]);
    }
  }

  /** Holding the signal true for any number of runs yields exactly one still. */
  lemma {:induction false} HeldSignalCapturesOnce(n: nat)
    requires n >= 1
    ensures Captures(false, seq(n, _ => true)) == 1
  {
    var s := seq(n, _ => true);
    assert s[1..] == seq(n - 1, _ => true);
    HeldAfterLatchCapturesNothing(n - 1);
  }

  lemma {:induction false} HeldAfterLatchCapturesNothing(n: nat)
    ensures Captures(true, seq(n, _ => true)) == 0
  {
    if n > 0 {
      var s := seq(n, _ => true);
      assert s[1..] == seq(n - 1, _ => true);
      HeldAfterLatchCapturesNothing(n - 1);
    }
  }

  /** `n` presses, each a true followed by a false, yield exactly `n` stills. */
  function Presses(n: nat): (s: seq<bool>)
    ensures |s| == 2 * n
  {
    if n == 0 then [] else [true, false] + Presses(n - 1)
  }

  lemma {:induction false} PressesCaptureOncePerPress(n: nat)
    ensures Captures(false, Presses(n)) == n
  {
    if n > 0 {
      var s := Presses(n);
      assert s[1..][1..] == Presses(n - 1);
      PressesCaptureOncePerPress(n - 1);
    }
  }

  /** However the signal moves, the effect never captures more stills than
      there are runs in which the signal is true. */
  function TrueRuns(signals: seq<bool>): nat {
    if signals == [] then 0 else (if signals[0] then 1 else 0) + TrueRuns(signals[1..])
  }

  lemma {:induction false} CapturesAtMostTrueRuns(latch: bool, signals: seq<bool>)
    ensures Captures(latch, signals) <= TrueRuns(signals)
    decreases |signals|
  {
    if signals != [] {
      CapturesAtMostTrueRuns(LatchStep(latch, signals[0]).latch, signals[1..]);
    }
  }

  // ---------------------------------------------------------------------
  // The component's state
  // ---------------------------------------------------------------------

  class Camera {
    /** `lastCaptureRef.current` */
    var lastCapture: bool
    var chromaKeyEnabled: bool
    var intensity: Intensity
    /** `backgroundImage`, decoded to RGBA; None until it loads or after it fails. */
    var image: Option<BgImage>
    /** `background?.color` */
    var colour: Option<string>
    /** The canvas's pixels, `width × height` RGBA. */
    var canvas: array<Byte>
    var width: nat
    var height: nat

    ghost predicate Valid()
      reads this
    {
      && canvas.Length == 4 * (width * height)
      && (image.Some? ==> BgWellFormed(image.value))
    }

    /** A freshly mounted component: keying off, intensity 50, no image yet,
        latch clear, the canvas at its default 300 × 150, transparent black. */
    constructor (colour: Option<string>)
      ensures Valid() && fresh(canvas)
      ensures !lastCapture && !chromaKeyEnabled && intensity == 50 && image == None
      ensures this.colour == colour && width == 300 && height == 150
      ensures forall k :: 0 <= k < canvas.Length ==> canvas[k] == 0
    {
      lastCapture := false;
      chromaKeyEnabled := false;
      intensity := 50;
      image := None;
      this.colour := colour;
      width, height := 300, 150;
      canvas := new Byte[4 * (300 * 150)](_ => 0);
    }

    /** The `onload` / `onerror` handlers of the background image. */
    method SetBackgroundImage(loaded: Option<BgImage>)
      requires Valid()
      requires loaded.Some? ==> BgWellFormed(loaded.value)
      modifies this`image
      ensures Valid() && image == loaded
    {
      image := loaded;
    }

    /** The "Chroma Key" button. */
    method ToggleChromaKey()
      modifies this`chromaKeyEnabled
      ensures chromaKeyEnabled == !old(chromaKeyEnabled)
    {
      chromaKeyEnabled := !chromaKeyEnabled;
    }

    /** The intensity slider. */
    method SetIntensity(i: Intensity)
      modifies this`intensity
      ensures intensity == i
    {
      intensity := i;
    }

    /** One call of `applyChromaKey`.  With no frame ready it only reschedules;
        otherwise it resizes the canvas to the frame if needed, draws the frame
        mirrored, and, when keying is on, runs the pixel pass over the canvas. */
    method Tick(frame: Option<VideoFrame>)
      requires Valid()
      requires frame.Some? ==> FrameWellFormed(frame.value)
      modifies this, canvas
      ensures Valid()
      ensures lastCapture == old(lastCapture) && chromaKeyEnabled == old(chromaKeyEnabled)
      ensures intensity == old(intensity) && image == old(image) && colour == old(colour)
      ensures frame.None? ==> canvas == old(canvas) && width == old(width) && height == old(height)
                              && canvas[..] == old(canvas[..])
      ensures frame.Some? ==>
                && width == frame.value.width && height == frame.value.height
                && (canvas == old(canvas) || fresh(canvas))
                && canvas[..] == DisplayedFrame(frame.value, chromaKeyEnabled, intensity, image, colour)
    {
      if frame.None? {
        return;
      }
      var f := frame.value;
      if width != f.width || height != f.height {
        canvas := new Byte[4 * (f.width * f.height)](_ => 0);
        width, height := f.width, f.height;
      }
      DrawMirrored(canvas, f);
      if !chromaKeyEnabled {
        return;
      }
      ApplyChromaKey(canvas, width, height, intensity, image, colour);
    }

    /** The capture effect, run with the current `isCapturing`.  On a rising
        edge it sets the latch and hands out the canvas as a JPEG data URL;
        when the signal drops it clears the latch. */
    method OnCaptureSignal(isCapturing: bool) returns (captured: Option<Photo>)
      modifies this`lastCapture
      ensures var o := LatchStep(old(lastCapture), isCapturing);
              lastCapture == o.latch && (captured.Some? <==> o.fires)
      ensures captured.Some? ==> captured.value == JpegDataUrl(canvas[..], width, height)
    {
      captured := None;
      if isCapturing && !lastCapture {
        lastCapture := true;
        captured := Some(JpegDataUrl(canvas[..], width, height));
      }
      if !isCapturing && lastCapture {
        lastCapture := false;
      }
    }
  }

  /** `drawImage(video, 0, 0, W, H)` under the mirror transform, as an index map. */
  method DrawMirrored(canvas: array<Byte>, f: VideoFrame)
    requires FrameWellFormed(f) && canvas.Length == |f.data|
    modifies canvas
    ensures canvas[..] == Mirror(f.data, f.width, f.height)
  {
    forall k | 0 <= k < canvas.Length {
      canvas[k] := f.data[MirrorOffset(k, f.width, f.height)];
    }
  }
}
