/**
 * smart_mirror.py: the `SmartMirror` object and its per-frame step
 * `update_projector`, which captures the screen (falling back to a test
 * pattern), resizes the picture to 800×600, encodes it in the mirrors' fixed
 * layout and writes it, counting the frames that made it all the way.
 */
module SmartMirror {
  import opened Pixels
  import opened MirrorLayout

  /** Where the frame shown in one step comes from: the capture, else the pattern. */
  function FrameSource(capture: Option<Image>, pattern: Option<Image>): (s: Option<Image>)
    ensures capture.Some? ==> s == capture
    ensures capture.None? ==> s == pattern
  {
    if capture.Some? then capture else pattern
  }

  class SmartMirror {
    var running: bool
    var frameCount: nat
    /** `last_capture_time`, in the clock's units. */
    var lastCaptureTime: int
    /** `active_framebuffer`: the device path the capture found, if any. */
    var activeFramebuffer: Option<string>

    /** `__init__`: stopped, no frames, no capture yet. */
    constructor ()
      ensures !running && frameCount == 0 && lastCaptureTime == 0 && activeFramebuffer == None
    {
      running := false;
      frameCount := 0;
      lastCaptureTime := 0;
      activeFramebuffer := None;
    }

    /**
     * `update_projector()`. The screen capture and the test pattern are the
     * images `capture` and `pattern` (`None` when they fail); the file
     * system's part of the write is `writeOk`. `written` is what was handed to
     * `write_to_file`. The step succeeds, and the frame count rises by one,
     * exactly when there was a picture and the write validated.
     */
    method UpdateProjector(capture: Option<Image>, pattern: Option<Image>, writeOk: bool)
      returns (success: bool, written: Option<seq<byte>>)
      requires capture.Some? ==> Valid(capture.value)
      requires pattern.Some? ==> Valid(pattern.value)
      modifies this
      ensures var source := FrameSource(capture, pattern);
        written == (if source.Some? then Some(MirrorFrame(Resample(source.value, ProjectorWidth, ProjectorHeight)))
                    else None)
      ensures success <==> FrameSource(capture, pattern).Some? && writeOk
      ensures frameCount == old(frameCount) + (if success then 1 else 0)
      ensures running == old(running) && lastCaptureTime == old(lastCaptureTime)
      ensures activeFramebuffer == old(activeFramebuffer)
    {
      var screenshot := capture;
      if screenshot.None? {
        screenshot := pattern;
      }
      if screenshot.None? {
        return false, None;
      }
      var resized := Resample(screenshot.value, ProjectorWidth, ProjectorHeight);
      var buffer := CreateRgbBufferWithStride(resized);
      if buffer.None? {
        return false, None;
      }
      written := buffer;
      FrameLength(resized);
      if !WriteToFile(buffer.value, writeOk) {
        return false, written;
      }
      frameCount := frameCount + 1;
      success := true;
    }
  }
}
