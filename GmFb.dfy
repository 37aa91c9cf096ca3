/**
 * gm12u320_fb.c: the framebuffer side of the driver. It keeps one pending
 * dirty rectangle (the part of the screen that changed since the last frame
 * went out) and chooses line length, size and pixel format of the
 * framebuffers it creates.
 */
module GmFb {
  import opened Pixels
  import opened Kernel

  // ---------------------------------------------------------------------
  // Dirty rectangles

  /** A rectangle as the driver stores it: columns `[x1, x2)`, rows `[y1, y2)`. */
  datatype Rect = Rect(x1: int, x2: int, y1: int, y2: int)

  /** `outer` reaches at least as far as `inner` on all four sides. */
  predicate Encloses(outer: Rect, inner: Rect)
  {
    outer.x1 <= inner.x1 && inner.x2 <= outer.x2 && outer.y1 <= inner.y1 && inner.y2 <= outer.y2
  }

  function Min(a: int, b: int): int { if a <= b then a else b }

  function Max(a: int, b: int): int { if a <= b then b else a }

  /** The bounding box of two rectangles: the smaller `x1`, `y1` and the larger `x2`, `y2`. */
  function Union(a: Rect, b: Rect): (u: Rect)
    ensures Encloses(u, a) && Encloses(u, b)
  {
    Rect(Min(a.x1, b.x1), Max(a.x2, b.x2), Min(a.y1, b.y1), Max(a.y2, b.y2))
  }

  /** Every rectangle that encloses both `a` and `b` encloses their union. */
  lemma UnionLeast(a: Rect, b: Rect, c: Rect)
    requires Encloses(c, a) && Encloses(c, b)
    ensures Encloses(c, Union(a, b))
  {
  }

  /** The union is idempotent, commutative and associative. */
  lemma UnionLaws(a: Rect, b: Rect, c: Rect)
    ensures Union(a, a) == a
    ensures Union(a, b) == Union(b, a)
    ensures Union(Union(a, b), c) == Union(a, Union(b, c))
  {
  }

  /** The bounding box of a non-empty run of clip rectangles, folded from the front. */
  function Bound(clips: seq<Rect>): (b: Rect)
    requires |clips| > 0
    ensures forall i :: 0 <= i < |clips| ==> Encloses(b, clips[i])
  {
    if |clips| == 1 then clips[0] else Union(Bound(clips[..|clips| - 1]), clips[|clips| - 1])
  }

  /** The bounding box is the smallest rectangle enclosing every clip. */
  lemma {:induction false} BoundLeast(clips: seq<Rect>, c: Rect)
    requires |clips| > 0
    requires forall i :: 0 <= i < |clips| ==> Encloses(c, clips[i])
    ensures Encloses(c, Bound(clips))
  {
    if |clips| > 1 {
      var init := clips[..|clips| - 1];
      assert forall i :: 0 <= i < |init| ==> init[i] == clips[i];
      BoundLeast(init, c);
      UnionLeast(Bound(init), clips[|clips| - 1], c);
    }
  }

  /**
   * The clip loop of `gm12u320_user_framebuffer_dirty`: start from the first
   * clip, then widen by each following clip (`while (--num_clips)`).
   */
  method BoundingBox(clips: seq<Rect>) returns (x1: int, x2: int, y1: int, y2: int)
    requires |clips| > 0
    ensures Rect(x1, x2, y1, y2) == Bound(clips)
  {
    x1, x2, y1, y2 := clips[0].x1, clips[0].x2, clips[0].y1, clips[0].y2;
    var i := 0;
    var n := |clips| - 1;
    while n != 0
      invariant 0 <= i < |clips| && i + n == |clips| - 1
      invariant Rect(x1, x2, y1, y2) == Bound(clips[..i + 1])
    {
      i := i + 1;
      assert clips[..i + 1][..i] == clips[..i];
      x1 := Min(x1, clips[i].x1);
      x2 := Max(x2, clips[i].x2);
      y1 := Min(y1, clips[i].y1);
      y2 := Max(y2, clips[i].y2);
      n := n - 1;
    }
    assert clips[..i + 1] == clips;
  }

  /**
   * What `fb_update` holds: the framebuffer whose changes are pending
   * (`None` before the first mark) and the rectangle that changed. A
   * framebuffer is identified by a number standing for its address.
   */
  datatype Pending = Pending(fb: Option<nat>, rect: Rect)

  /**
   * `gm12u320_fb_mark_dirty` on values: a mark for another framebuffer
   * replaces the pending one, a mark for the same framebuffer grows the
   * rectangle to the union.
   */
  function Mark(p: Pending, fb: nat, r: Rect): (q: Pending)
    ensures q.fb == Some(fb) && Encloses(q.rect, r)
    ensures p.fb == Some(fb) ==> Encloses(q.rect, p.rect)
    ensures p.fb != Some(fb) ==> q.rect == r
  {
    if p.fb != Some(fb) then Pending(Some(fb), r) else Pending(Some(fb), Union(p.rect, r))
  }

  /** Marking the same rectangle twice is marking it once. */
  lemma MarkIdempotent(p: Pending, fb: nat, r: Rect)
    ensures Mark(Mark(p, fb, r), fb, r) == Mark(p, fb, r)
  {
    if p.fb == Some(fb) {
      UnionLaws(p.rect, r, r);
    }
  }

  /** For one framebuffer, the order of two marks does not matter. */
  lemma MarkCommutes(p: Pending, fb: nat, a: Rect, b: Rect)
    ensures Mark(Mark(p, fb, a), fb, b) == Mark(Mark(p, fb, b), fb, a)
  {
    UnionLaws(a, b, a);
    if p.fb == Some(fb) {
      UnionLaws(p.rect, a, b);
      UnionLaws(p.rect, b, a);
      UnionLaws(a, b, b);
    }
  }

  /** The state after marking each clip in turn. */
  function MarkEach(p: Pending, fb: nat, clips: seq<Rect>): Pending
  {
    if clips == [] then p else Mark(MarkEach(p, fb, clips[..|clips| - 1]), fb, clips[|clips| - 1])
  }

  /**
   * Marking the bounding box once, as `gm12u320_user_framebuffer_dirty`
   * does, leaves the same state as marking every clip one by one.
   */
  lemma {:induction false} MarkBoundIsMarkEach(p: Pending, fb: nat, clips: seq<Rect>)
    requires |clips| > 0
    ensures Mark(p, fb, Bound(clips)) == MarkEach(p, fb, clips)
  {
    if |clips| > 1 {
      var init := clips[..|clips| - 1];
      var last := clips[|clips| - 1];
      MarkBoundIsMarkEach(p, fb, init);
      if p.fb == Some(fb) {
        UnionLaws(p.rect, Bound(init), last);
      }
    }
  }

  /** The dirty-rectangle part of the device state (`gm12u320->fb_update`). */
  class FbUpdate {
    var fb: Option<nat>
    var x1: int
    var x2: int
    var y1: int
    var y2: int

    function State(): Pending
      reads this
    {
      Pending(fb, Rect(x1, x2, y1, y2))
    }

    /** The zero-filled device structure: no framebuffer pending. */
    constructor ()
      ensures State() == Pending(None, Rect(0, 0, 0, 0))
    {
      fb := None;
      x1, x2, y1, y2 := 0, 0, 0, 0;
    }

    /**
     * `gm12u320_fb_mark_dirty(fb, x1, x2, y1, y2)`. The returned flag is the
     * function's local `wakeup`, which is never set, so no update is ever
     * woken from here.
     */
    method MarkDirty(id: nat, x1: int, x2: int, y1: int, y2: int) returns (wakeup: bool)
      modifies this
      ensures State() == Mark(old(State()), id, Rect(x1, x2, y1, y2))
      ensures !wakeup
    {
      wakeup := false;
      if this.fb != Some(id) {
        this.x1 := x1;
        this.x2 := x2;
        this.y1 := y1;
        this.y2 := y2;
        this.fb := Some(id);
      } else {
        this.x1 := Min(this.x1, x1);
        this.x2 := Max(this.x2, x2);
        this.y1 := Min(this.y1, y1);
        this.y2 := Max(this.y2, y2);
      }
    }

    /**
     * `gm12u320_user_framebuffer_dirty` for the framebuffer `id`: no clips
     * leave the state alone; otherwise the clips' bounding box is marked.
     * It always returns 0.
     */
    method UserFramebufferDirty(id: nat, clips: seq<Rect>) returns (ret: int)
      modifies this
      ensures ret == 0
      ensures State() == if |clips| == 0 then old(State()) else Mark(old(State()), id, Bound(clips))
    {
      if |clips| == 0 {
        return 0;
      }
      var x1, x2, y1, y2 := BoundingBox(clips);
      var _ := MarkDirty(id, x1, x2, y1, y2);
      ret := 0;
    }
  }

  // ---------------------------------------------------------------------
  // Framebuffer creation

  /** The DRM pixel formats the driver chooses between. */
  datatype Format = XRGB8888 | RGB888 | RGB565

  /** The framebuffer `gm12u320fb_create` asks for. */
  datatype FbMode = FbMode(bpp: nat, pitch: nat, format: Format, size: nat)

  /**
   * The arithmetic of `gm12u320fb_create` for the helper's surface size, all
   * in `u32`: 24 bits per pixel become 32, a line is `width` pixels of whole
   * bytes, the pixel format follows the depth, and the object is the lines'
   * total rounded up to whole pages.
   */
  function FbCreateMode(width: nat, height: nat, surfaceBpp: nat): FbMode
    requires width < Two32 && height < Two32 && surfaceBpp < Two32
  {
    var bpp := if surfaceBpp == 24 then 32 else surfaceBpp;
    var pitch := Pitch(width, bpp);
    var lines := U32(pitch * height);
    var format :=
      if bpp == 32 then XRGB8888
      else if bpp == 24 then RGB888
      else if bpp == 16 then RGB565
      else XRGB8888;
    FbMode(bpp, pitch, format, PageAlign(lines, Two32))
  }

  /**
   * The mode `gm12u320fb_create` asks for: 24 bits per pixel become 32, the
   * format is RGB565 at 16 bits and XRGB8888 otherwise, the pitch is `width`
   * whole-byte pixels when that fits in `u32`, and the size is a page
   * multiple that, when nothing wraps, is the lines' total rounded up.
   */
  lemma FbCreateModeFacts(width: nat, height: nat, surfaceBpp: nat)
    requires width < Two32 && height < Two32 && surfaceBpp < Two32
    ensures var m := FbCreateMode(width, height, surfaceBpp);
      && m.bpp == (if surfaceBpp == 24 then 32 else surfaceBpp)
      && m.format == (if m.bpp == 16 then RGB565 else XRGB8888)
      && m.size % PageSize == 0 && m.size < Two32
      && (width * BytesPerPixel(m.bpp) < Two32 ==> m.pitch == width * BytesPerPixel(m.bpp))
      && (m.pitch * height + PageSize - 1 < Two32 ==>
            m.pitch * height <= m.size < m.pitch * height + PageSize)
  {
    var m := FbCreateMode(width, height, surfaceBpp);
    AlignedTotal(m.pitch * height);
  }

  /** A byte count that fits in `u32` with room for rounding up is rounded up to whole pages. */
  lemma AlignedTotal(total: nat)
    ensures total + PageSize - 1 < Two32 ==>
      total <= PageAlign(U32(total), Two32) < total + PageSize
  {
  }

  /**
   * At the depths the helper asks for, lines are 2 or 4 bytes a pixel, and
   * when the whole framebuffer fits in `u32` the object is its byte count
   * rounded up to whole pages.
   */
  lemma FbCreateDepths(width: nat, height: nat, surfaceBpp: nat)
    requires width < 65536 && height < 65536
    requires surfaceBpp == 16 || surfaceBpp == 24 || surfaceBpp == 32
    ensures var m := FbCreateMode(width, height, surfaceBpp);
      var bytes := if surfaceBpp == 16 then 2 else 4;
      m.pitch == width * bytes &&
      m.format == (if surfaceBpp == 16 then RGB565 else XRGB8888) &&
      m.size % PageSize == 0 &&
      (width * bytes * height + PageSize - 1 < Two32 ==>
         width * bytes * height <= m.size < width * bytes * height + PageSize)
  {
    var m := FbCreateMode(width, height, surfaceBpp);
    var bytes := if surfaceBpp == 16 then 2 else 4;
    assert BytesPerPixel(m.bpp) == bytes;
    assert width * bytes < Two32;
    FbCreateModeFacts(width, height, surfaceBpp);
    assert m.pitch * height == width * bytes * height;
  }

  /**
   * `gm12u320_fb_user_fb_create` for a request with line length `pitch`
   * and `height` lines. `found` is whether the handle names an object and
   * `objSize` its size; `allocOk` whether `kzalloc` found the framebuffer
   * structure; `initRet` what `drm_framebuffer_init` returned. The result is
   * 0 for a created framebuffer, otherwise the negative error code.
   */
  function UserFbCreate(found: bool, objSize: nat, pitch: nat, height: nat, allocOk: bool,
                        initRet: int): (r: int)
    requires pitch < Two32 && height < Two32
    ensures !found ==> r == -ENOENT
    ensures found ==> (PageAlign(U32(pitch * height), Two32) > objSize ==> r == -ENOMEM)
    ensures r == 0 <==>
      found && PageAlign(U32(pitch * height), Two32) <= objSize && allocOk && initRet == 0
    ensures r != 0 ==> r in {-ENOENT, -ENOMEM, -EINVAL}
  {
    if !found then -ENOENT
    else if PageAlign(U32(pitch * height), Two32) > objSize then -ENOMEM
    else if !allocOk then -ENOMEM
    else if initRet != 0 then -EINVAL
    else 0
  }

  /**
   * When the lines' total fits a `u32` with room to round up, a created
   * framebuffer lies inside its object.
   */
  lemma UserFbFits(objSize: nat, pitch: nat, height: nat, initRet: int)
    requires pitch < Two32 && height < Two32 && pitch * height + PageSize - 1 < Two32
    requires UserFbCreate(true, objSize, pitch, height, true, initRet) == 0
    ensures pitch * height <= objSize
  {
  }

  /**
   * The size check relies on the DRM core's own range check: a request whose
   * lines total exactly 4 GiB wraps to 0 in `u32` and passes for a one-page
   * object.
   */
  lemma UserFbWrapsWithoutRangeCheck()
    ensures UserFbCreate(true, PageSize, 65536, 65536, true, 0) == 0
  {
    assert 65536 * 65536 == Two32;
  }
}
