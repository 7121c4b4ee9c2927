/** The capture page's session (client/pages/capture.js): the step, the photo
    counter and the captured photos, advanced by the take button, which pulses
    `isCapturing` into the camera's capture latch.  Each handler and the timers
    it starts is one atomic step. */
module CaptureSession {
  import opened Common
  import opened CameraView

  datatype Step = Ready | Capturing | Reviewing

  /** The page's state variables that the handlers change. */
  datatype Session = Session(step: Step, photoCount: nat, photos: seq<Photo>, isCapturing: bool)

  /** `selectedTemplate?.captureCount || 8` */
  function TotalPhotos(captureCount: Option<nat>): (n: nat)
    ensures n > 0
    ensures captureCount.Some? && captureCount.value > 0 ==> n == captureCount.value
  {
    if captureCount.None? || captureCount.value == 0 then 8 else captureCount.value
  }

  /** The state `startPhotoSession` leaves. */
  const Started: Session := Session(Capturing, 0, [], false)

  /** One press of the take button that yields `shot`, including the 300 ms
      and 1000 ms timers: nothing at the limit; otherwise one more photo, and
      the review step once the limit is reached. */
  function Take(s: Session, total: nat, shot: Photo): (r: Session)
    ensures s.photoCount >= total ==> r == s
    ensures s.photoCount < total ==>
              && r.photoCount == s.photoCount + 1 && r.photos == s.photos + [shot] && !r.isCapturing
              && (r.step == Reviewing <==> (r.photoCount >= total || s.step == Reviewing))
  {
    if s.photoCount >= total then s
    else Session(if s.photoCount + 1 >= total then Reviewing else s.step,
                 s.photoCount + 1, s.photos + [shot], false)
  }

  /** Pressing once per element of `shots`. */
  function TakeAll(s: Session, total: nat, shots: seq<Photo>): Session
    decreases |shots|
  {
    if shots == [] then s else TakeAll(Take(s, total, shots[0]), total, shots[1..])
  }

  function Min(a: nat, b: nat): nat { if a <= b then a else b }

  /** From a fresh session, n presses leave min(n, total) photos, which are the
      first shots in order; the review step comes exactly when n reaches total. */
  lemma {:induction false} PressesFromStart(total: nat, shots: seq<Photo>)
    requires total > 0
    ensures var s := TakeAll(Started, total, shots);
            && s.photoCount == Min(|shots|, total)
            && s.photos == shots[..Min(|shots|, total)]
            && !s.isCapturing
            && (s.step == Reviewing <==> |shots| >= total)
            && (s.step != Reviewing ==> s.step == Capturing)
  {
    PressesFrom(Started, total, shots);
  }

  lemma {:induction false} PressesFrom(s: Session, total: nat, shots: seq<Photo>)
    requires s.photoCount <= total && |s.photos| == s.photoCount && !s.isCapturing
    requires s.step == Reviewing <==> s.photoCount >= total
    requires s.step != Reviewing ==> s.step == Capturing
    ensures var r := TakeAll(s, total, shots);
            && r.photoCount == Min(s.photoCount + |shots|, total)
            && r.photos == s.photos + shots[..r.photoCount - s.photoCount]
            && !r.isCapturing
            && (r.step == Reviewing <==> s.photoCount + |shots| >= total)
            && (r.step != Reviewing ==> r.step == Capturing)
    decreases |shots|
  {
    if shots == [] {
      assert s.photos + shots[..0] == s.photos;
    } else {
      var t := Take(s, total, shots[0]);
      PressesFrom(t, total, shots[1..]);
      var r := TakeAll(t, total, shots[1..]);
      if s.photoCount >= total {
        assert shots[..0] == [];
      } else {
        calc {
          r.photos;
          t.photos + shots[1..][..r.photoCount - t.photoCount];
          s.photos + [shots[0]] + shots[1..][..r.photoCount - t.photoCount];
          { assert [shots[0]] + shots[1..][..r.photoCount - t.photoCount] == shots[..r.photoCount - s.photoCount]; }
          s.photos + shots[..r.photoCount - s.photoCount];
        }
      }
    }
  }

  /** However often the button is pressed, the counter never passes the total
      and every counted photo is kept. */
  lemma {:induction false} CountNeverPassesTotal(s: Session, total: nat, shots: seq<Photo>)
    requires s.photoCount <= total && |s.photos| == s.photoCount
    ensures TakeAll(s, total, shots).photoCount <= total
    ensures |TakeAll(s, total, shots).photos| == TakeAll(s, total, shots).photoCount
    decreases |shots|
  {
    if shots != [] {
      CountNeverPassesTotal(Take(s, total, shots[0]), total, shots[1..]);
    }
  }

  // ---------------------------------------------------------------------
  // The page
  // ---------------------------------------------------------------------

  class CapturePage {
    var step: Step
    var photoCount: nat
    var capturedPhotos: seq<Photo>
    var isCapturing: bool
    const totalPhotos: nat
    /** The `CameraView` the page renders, fed `isCapturing`. */
    const camera: Camera

    function State(): Session
      reads this
    {
      Session(step, photoCount, capturedPhotos, isCapturing)
    }

    /** Between handlers: the counter within the total, one photo per count,
        no pulse in progress and the camera's latch clear. */
    ghost predicate Valid()
      reads this, camera
    {
      && photoCount <= totalPhotos && |capturedPhotos| == photoCount
      && !isCapturing && !camera.lastCapture
      && (step == Ready ==> photoCount == 0)
    }

    /** The page once the template has loaded. */
    constructor (captureCount: Option<nat>, camera: Camera)
      requires !camera.lastCapture
      ensures Valid() && State() == Session(Ready, 0, [], false)
      ensures totalPhotos == TotalPhotos(captureCount) && this.camera == camera
    {
      step, photoCount, capturedPhotos, isCapturing := Ready, 0, [], false;
      totalPhotos := TotalPhotos(captureCount);
      this.camera := camera;
    }

    /** `startPhotoSession` */
    method StartPhotoSession()
      requires Valid()
      modifies this
      ensures Valid() && State() == Started
    {
      step, photoCount, capturedPhotos, isCapturing := Capturing, 0, [], false;
    }

    /** `handlePhotoCapture`: the camera's still is appended. */
    method HandlePhotoCapture(dataUrl: Photo)
      modifies this`capturedPhotos
      ensures capturedPhotos == old(capturedPhotos) + [dataUrl]
    {
      capturedPhotos := capturedPhotos + [dataUrl];
    }

    /** `takePhotoManually`, offered only while capturing and not mid-pulse.
        It raises `isCapturing`, on which the camera's effect hands out the
        canvas; it lowers it again, counts the photo and, at the total, moves
        to the review step. */
    method TakePhotoManually()
      requires Valid() && step == Capturing
      modifies this, camera`lastCapture
      ensures Valid()
      ensures State() == Take(old(State()), totalPhotos, JpegDataUrl(camera.canvas[..], camera.width, camera.height))
    {
      if photoCount >= totalPhotos {
        return;
      }
      isCapturing := true;
      var shot := camera.OnCaptureSignal(isCapturing);
      if shot.Some? {
        HandlePhotoCapture(shot.value);
      }
      isCapturing := false;
      var none := camera.OnCaptureSignal(isCapturing);
      photoCount := photoCount + 1;
      if photoCount >= totalPhotos {
        step := Reviewing;
      }
    }

    /** The button shown in place of the take button once all are taken. */
    method ReviewNow()
      requires Valid() && photoCount >= totalPhotos
      modifies this`step
      ensures Valid() && State() == old(State()).(step := Reviewing)
    {
      step := Reviewing;
    }

    /** `retakePhotos` */
    method RetakePhotos()
      requires Valid()
      modifies this
      ensures Valid() && State() == Session(Ready, 0, [], false)
    {
      step, photoCount, capturedPhotos, isCapturing := Ready, 0, [], false;
    }
  }
}
