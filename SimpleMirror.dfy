/**
 * simple_mirror.py: the `SimpleMirror` object and its per-frame step
 * `update_projector(capture_method)`, which grabs the screen with the method
 * chosen at start-up, resizes the picture to 800×600, encodes it in the
 * mirrors' fixed layout and writes it, counting the frames that made it all
 * the way.
 */
module SimpleMirror {
  import opened Pixels
  import opened MirrorLayout

  /** The grab `update_projector` uses: mss for "mss", the alternative for anything else. */
  function Grab(captureMethod: string, mssShot: Option<Image>, altShot: Option<Image>): (s: Option<Image>)
    ensures captureMethod == "mss" ==> s == mssShot
    ensures captureMethod != "mss" ==> s == altShot
  {
    if captureMethod == "mss" then mssShot else altShot
  }

  class SimpleMirror {
    var running: bool
    var frameCount: nat
    /** `last_capture_time`, in the clock's units. */
    var lastCaptureTime: int

    /** `__init__`: stopped, no frames, no capture yet. */
    constructor ()
      ensures !running && frameCount == 0 && lastCaptureTime == 0
    {
      running := false;
      frameCount := 0;
      lastCaptureTime := 0;
    }

    /**
     * `update_projector(capture_method)`. The two grabs are the images
     * `mssShot` and `altShot` (`None` when they fail); the file system's part
     * of the write is `writeOk`. `written` is what was handed to
     * `write_to_file`. The step succeeds, and the frame count rises by one,
     * exactly when the chosen grab gave a picture and the write validated.
     */
    method UpdateProjector(captureMethod: string, mssShot: Option<Image>, altShot: Option<Image>,
                           writeOk: bool)
      returns (success: bool, written: Option<seq<byte>>)
      requires mssShot.Some? ==> Valid(mssShot.value)
      requires altShot.Some? ==> Valid(altShot.value)
      modifies this
      ensures var source := Grab(captureMethod, mssShot, altShot);
        written == (if source.Some? then Some(MirrorFrame(Resample(source.value, ProjectorWidth, ProjectorHeight)))
                    else None)
      ensures success <==> Grab(captureMethod, mssShot, altShot).Some? && writeOk
      ensures frameCount == old(frameCount) + (if success then 1 else 0)
      ensures running == old(running) && lastCaptureTime == old(lastCaptureTime)
    {
      var screenshot: Option<Image>;
      if captureMethod == "mss" {
        screenshot := mssShot;
      } else {
        screenshot := altShot;
      }
      if screenshot.None? {
        return false, None;
      }
      var resized := Resample(screenshot.value, ProjectorWidth, ProjectorHeight);
      var buffer := CreateRgbBufferWithStride(resized);
      if buffer.None? {
        return false, None;
      }
      written := buffer;
      FrameLength(resized);
      if !WriteToFile(buffer.value, writeOk) {
        return false, written;
      }
      frameCount := frameCount + 1;
      success := true;
    }
  }
}
