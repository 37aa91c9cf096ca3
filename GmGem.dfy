/**
 * gm12u320_gem.c: the memory objects behind the framebuffers. It covers the
 * size arithmetic of dumb buffers, the page rounding of new objects, the
 * caching of their mappings, the outcome of a page fault, and the
 * all-or-nothing allocation of an object's pages.
 */
module GmGem {
  import opened Pixels
  import opened Kernel

  // ---------------------------------------------------------------------
  // Creating objects

  /** The two flag bits of an object: `GM12U320_BO_CACHEABLE` and `GM12U320_BO_WC`. */
  datatype BoFlags = BoFlags(cacheable: bool, wc: bool)

  /** `gm12u320_gem_alloc_object` marks every object it makes cacheable. */
  const AllocFlags: BoFlags := BoFlags(true, false)

  /** What `gm12u320_gem_create` leaves behind: a handle, or an error code. */
  datatype Created = Handle(handle: nat, objSize: nat, flags: BoFlags) | Failed(code: int)

  /**
   * `gm12u320_gem_create` for a requested `size` (a `u64`): the size is
   * rounded up to whole pages, then an object of that size is made.
   * `allocOk` is whether `gm12u320_gem_alloc_object` succeeded, and
   * `handleRet`/`handle` what `drm_gem_handle_create` returned.
   */
  function GemCreate(size: nat, allocOk: bool, handleRet: int, handle: nat): (r: Created)
    requires size < Two64
    ensures r.Handle? <==> allocOk && handleRet == 0
    ensures r.Failed? ==> r.code == if allocOk then handleRet else -ENOMEM
    ensures r.Handle? ==> r.handle == handle && r.flags == AllocFlags && r.objSize % PageSize == 0
    ensures r.Handle? && size + PageSize - 1 < Two64 ==> size <= r.objSize < size + PageSize
  {
    var rounded := PageAlign(size, Two64);
    if !allocOk then Failed(-ENOMEM)
    else if handleRet != 0 then Failed(handleRet)
    else Handle(handle, rounded, AllocFlags)
  }

  /** The line length and size `gm12u320_dumb_create` reports back. */
  datatype Dumb = Dumb(pitch: nat, size: nat)

  /**
   * The arithmetic of `gm12u320_dumb_create`: a line is `width` pixels of
   * whole bytes, and the size is lines times height. Both products are
   * computed in `u32` (the size only then widened to `u64`).
   */
  function DumbLayout(width: nat, height: nat, bpp: nat): (d: Dumb)
    requires width < Two32 && height < Two32 && bpp < Two32
    ensures d.pitch < Two32 && d.size < Two32
    ensures width * BytesPerPixel(bpp) < Two32 ==> d.pitch == width * BytesPerPixel(bpp)
    ensures d.pitch * height < Two32 ==> d.size == d.pitch * height
  {
    var pitch := Pitch(width, bpp);
    Dumb(pitch, U32(pitch * height))
  }

  /**
   * `gm12u320_dumb_create`: the layout, then an object of (at least) the
   * layout's size.
   */
  function DumbCreate(width: nat, height: nat, bpp: nat, allocOk: bool, handleRet: int, handle: nat)
    : (r: (Dumb, Created))
    requires width < Two32 && height < Two32 && bpp < Two32
    ensures r.0 == DumbLayout(width, height, bpp)
    ensures r.1.Handle? <==> allocOk && handleRet == 0
    ensures r.1.Handle? ==> r.0.size <= r.1.objSize < r.0.size + PageSize
  {
    var d := DumbLayout(width, height, bpp);
    (d, GemCreate(d.size, allocOk, handleRet, handle))
  }

  /**
   * Without overflow in `u32`, a dumb buffer of 32-bit pixels gets 4 bytes a
   * pixel, and its object holds every line.
   */
  lemma DumbCreateHoldsLines(width: nat, height: nat, handle: nat)
    requires width * 4 < Two32 && height < Two32 && width * 4 * height < Two32
    ensures var r := DumbCreate(width, height, 32, true, 0, handle);
      r.0.pitch == 4 * width && r.1.Handle? && 4 * width * height <= r.1.objSize
  {
    assert BytesPerPixel(32) == 4;
    assert width * 4 <= width * 4 * height || height == 0;
  }

  // ---------------------------------------------------------------------
  // Mappings and faults

  /** How the pages of a mapping are cached. */
  datatype PageProt = Cached | WriteCombined | Uncached

  /**
   * `update_vm_cache_attr`: the cacheable flag wins over write-combining, and
   * with neither flag the mapping is not cached.
   */
  function CacheAttr(flags: BoFlags): (p: PageProt)
    ensures p == Cached <==> flags.cacheable
    ensures p == WriteCombined <==> !flags.cacheable && flags.wc
    ensures p == Uncached <==> !flags.cacheable && !flags.wc
  {
    if flags.cacheable then Cached
    else if flags.wc then WriteCombined
    else Uncached
  }

  /** The objects the driver makes are mapped cached. */
  lemma CreatedMappedCached(size: nat, handle: nat)
    requires size < Two64
    ensures CacheAttr(GemCreate(size, true, 0, handle).flags) == Cached
  {
  }

  /** The outcomes of a page fault (`VM_FAULT_*`). */
  datatype VmFault = NoPage | Oom | SigBus

  /**
   * The switch on `vm_insert_page`'s return value: success, "try again" and
   * "restart" all mean the page is in; out of memory is reported as such;
   * every other error is a bus error.
   */
  function InsertFault(ret: int): (f: VmFault)
    ensures f == NoPage <==> ret == 0 || ret == -EAGAIN || ret == -ERESTARTSYS
    ensures f == Oom <==> ret == -ENOMEM
    ensures f == SigBus <==> ret !in {0, -EAGAIN, -ERESTARTSYS, -ENOMEM}
  {
    if ret == -EAGAIN || ret == 0 || ret == -ERESTARTSYS then NoPage
    else if ret == -ENOMEM then Oom
    else SigBus
  }

  /** A page, identified by a number standing for its `struct page` address. */
  type Page = nat

  /**
   * `gm12u320_gem_fault` for a fault `offset` bytes into the mapping (the
   * address minus the mapping's start): an object without pages is a bus
   * error; otherwise the page at `offset / PAGE_SIZE` is inserted, and
   * `insert` gives what `vm_insert_page` returns for a page.
   */
  function GemFault(pages: Option<seq<Page>>, offset: nat, insert: Page -> int): (f: VmFault)
    requires pages.Some? ==> offset / PageSize < |pages.value|
    ensures pages.None? ==> f == SigBus
    ensures pages.Some? ==>
      (f == SigBus <==> insert(pages.value[offset / PageSize]) !in {0, -EAGAIN, -ERESTARTSYS, -ENOMEM})
  {
    match pages
    case None => SigBus
    case Some(ps) => InsertFault(insert(ps[offset / PageSize]))
  }

  /** A fault anywhere in the `p`-th page of the mapping inserts the object's `p`-th page. */
  lemma FaultInsertsItsPage(pages: seq<Page>, p: nat, k: nat, insert: Page -> int)
    requires p < |pages| && k < PageSize
    ensures GemFault(Some(pages), p * PageSize + k, insert) == InsertFault(insert(pages[p]))
  {
    Split(p * PageSize + k, p, k, PageSize);
  }

  // ---------------------------------------------------------------------
  // Getting an object's pages

  /**
   * The first of the `n` page allocations, counting from `i`, that fails;
   * `n` when none does. `alloc(k)` is the outcome of the `k`-th
   * `alloc_page` call.
   */
  function FirstFailure(alloc: nat -> Option<Page>, i: nat, n: nat): (k: nat)
    requires i <= n
    ensures i <= k <= n
    ensures forall j :: i <= j < k ==> alloc(j).Some?
    ensures k < n ==> alloc(k).None?
    decreases n - i
  {
    if i == n || alloc(i).None? then i else FirstFailure(alloc, i + 1, n)
  }

  /** The pages of the first `k` allocations, all of which succeeded. */
  function Allocated(alloc: nat -> Option<Page>, k: nat): (ps: seq<Page>)
    requires forall j :: 0 <= j < k ==> alloc(j).Some?
    ensures |ps| == k && forall j :: 0 <= j < k ==> ps[j] == alloc(j).value
  {
    seq(k, j requires 0 <= j < k && alloc(j).Some? => alloc(j).value)
  }

  function Reversed(s: seq<Page>): (r: seq<Page>)
    ensures |r| == |s|
  {
    if s == [] then [] else Reversed(s[1..]) + [s[0]]
  }

  /** Element `j` of the reversal is element `|s| - 1 - j` of `s`; nothing is lost or added. */
  lemma {:induction false} ReversedAt(s: seq<Page>)
    ensures forall j :: 0 <= j < |s| ==> Reversed(s)[j] == s[|s| - 1 - j]
    ensures multiset(Reversed(s)) == multiset(s)
  {
    if s != [] {
      ReversedAt(s[1..]);
      assert s == [s[0]] + s[1..];
    }
  }

  /** What `gm12u320_gem_get_pages` returns, the pages it keeps, the pages it frees. */
  datatype PagesResult = PagesResult(ret: int, pages: Option<seq<Page>>, freed: seq<Page>)

  /**
   * `gm12u320_gem_get_pages` on an object without pages, with `arrayOk`
   * whether the page array could be allocated and `n` the object's page
   * count: either every page is allocated and kept, or none is kept and
   * the pages allocated before the failing one are freed, last first.
   */
  function GetPagesOutcome(arrayOk: bool, alloc: nat -> Option<Page>, n: nat): PagesResult
  {
    if !arrayOk then PagesResult(-ENOMEM, None, [])
    else
      var k := FirstFailure(alloc, 0, n);
      if k == n then PagesResult(0, Some(Allocated(alloc, n)), [])
      else PagesResult(-ENOMEM, None, Reversed(Allocated(alloc, k)))
  }

  /**
   * All or nothing: the object ends up with pages exactly when the call
   * succeeds, and then with one page from each of the `n` allocations, in
   * order. On failure every page that was allocated is freed, each once.
   */
  lemma GetPagesAllOrNothing(arrayOk: bool, alloc: nat -> Option<Page>, n: nat)
    ensures var r := GetPagesOutcome(arrayOk, alloc, n);
      (r.pages.Some? <==> r.ret == 0) && (r.ret != 0 ==> r.ret == -ENOMEM) &&
      (r.pages.Some? ==>
        |r.pages.value| == n &&
        forall j :: 0 <= j < n ==> alloc(j).Some? && r.pages.value[j] == alloc(j).value) &&
      (r.pages.None? ==> arrayOk ==>
        var k := FirstFailure(alloc, 0, n);
        k < n && alloc(k).None? && multiset(r.freed) == multiset(Allocated(alloc, k)))
    ensures arrayOk && (forall j :: 0 <= j < n ==> alloc(j).Some?) ==>
      GetPagesOutcome(arrayOk, alloc, n).ret == 0
  {
    if arrayOk {
      var k := FirstFailure(alloc, 0, n);
      if k < n {
        ReversedAt(Allocated(alloc, k));
      }
    }
  }

  /** A GEM object of this driver: its size and, once allocated, its pages (`obj->pages`). */
  class GemObject {
    const size: nat
    var pages: Option<seq<Page>>
    var flags: BoFlags

    /** `gm12u320_gem_alloc_object`: no pages yet, cacheable. */
    constructor (size: nat)
      ensures this.size == size && pages == None && flags == AllocFlags
    {
      this.size := size;
      pages := None;
      flags := AllocFlags;
    }

    /**
     * `gm12u320_gem_get_pages`. An object that already has pages is left as
     * it is. Otherwise `arrayOk` says whether the page array was allocated
     * and `alloc(i)` is the outcome of the `i`-th `alloc_page`; `freed`
     * lists the pages given back, in the order `__free_page` sees them.
     */
    method GetPages(arrayOk: bool, alloc: nat -> Option<Page>) returns (ret: int, freed: seq<Page>)
      modifies this`pages
      ensures old(pages).Some? ==> ret == 0 && pages == old(pages) && freed == []
      ensures old(pages).None? ==>
        PagesResult(ret, pages, freed) == GetPagesOutcome(arrayOk, alloc, size / PageSize)
    {
      var pageCount := size / PageSize;
      if pages.Some? {
        return 0, [];
      }
      if !arrayOk {
        return -ENOMEM, [];
      }
      var arr := new Page[pageCount];
      var i := 0;
      while i < pageCount
        modifies arr
        invariant 0 <= i <= pageCount
        invariant forall j :: 0 <= j < i ==> alloc(j).Some? && arr[j] == alloc(j).value
        invariant FirstFailure(alloc, 0, pageCount) == FirstFailure(alloc, i, pageCount)
      {
        var p := alloc(i);
        if p.None? {
          freed := FreeAll(arr, i);
          assert FirstFailure(alloc, i, pageCount) == i;
          assert arr[..i] == Allocated(alloc, i);

          return -ENOMEM, freed;
        }
        arr[i] := p.value;
        i := i + 1;
      }
      assert arr[..] == Allocated(alloc, pageCount);
      pages := Some(arr[..]);
      ret, freed := 0, [];
    }
  }

  /** The rollback `while (--i >= 0) __free_page(pages[i])`: the first `i` pages, last first. */
  method FreeAll(arr: array<Page>, i: nat) returns (freed: seq<Page>)
    requires i <= arr.Length
    ensures freed == Reversed(arr[..i])
  {
    freed := [];
    var k := i - 1;
    while k >= 0
      invariant -1 <= k < i
      invariant freed == Reversed(arr[k + 1..i])
    {
      assert arr[k..i][1..] == arr[k + 1..i];
      freed := freed + [arr[k]];
      k := k - 1;
    }
    assert arr[0..i] == arr[..i];
  }
}
