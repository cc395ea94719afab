/** `MmapBacked`: an OS mapping with a bump cursor and, on Windows, a lazily advanced
    commit watermark. Every call into the OS is a parameter saying what the OS answered. */
module Mmap {
  import opened Words
  import opened RawBytes
  import opened Layouts
  import opened BumpMath

  /** The offsets in `[lo, hi)`. */
  ghost function Range(lo: nat, hi: nat): (s: set<nat>)
    ensures forall b: nat :: b in s <==> lo <= b < hi
    decreases hi - lo
  {
    if lo >= hi then {} else {lo} + Range(lo + 1, hi)
  }

  datatype Platform = Unix | Windows

  /** The part of a mapping the commit protocol is about: `[base, base + len)` with the
      watermark `committed`, a byte offset from `base`. */
  datatype Region = Region(base: nat, len: nat, page: nat, platform: Platform, committed: nat)

  ghost predicate ValidRegion(r: Region) {
    && IsPow2(r.page) && r.page <= USIZE_MAX
    && 0 < r.base && 0 < r.len && r.base + r.len <= USIZE_MAX + 1
    && Aligned(r.len, r.page)
    && r.committed <= r.len && Aligned(r.committed, r.page)
    && (r.platform == Unix ==> r.committed == r.len)
  }

  /** The length `MmapBacked::with_flags` maps for a request of `size` bytes. */
  function MapLength(size: nat, page: nat): Option<nat>
    requires size <= USIZE_MAX && IsPow2(page) && page <= USIZE_MAX
  {
    if size == 0 then None else CheckedRoundUp(size, page)
  }

  /** The mapped length is the least page multiple, and rounding it fails only when no
      such word exists. */
  lemma MapLengthExact(size: nat, page: nat)
    requires size <= USIZE_MAX && IsPow2(page) && page <= USIZE_MAX
    ensures MapLength(size, page) ==
            if 0 < size && RoundUp(size, page) <= USIZE_MAX then Some(RoundUp(size, page)) else None
    ensures MapLength(size, page).Some? ==>
            Aligned(MapLength(size, page).value, page) && size <= MapLength(size, page).value < size + page
  {
    if size > 0 {
      CheckedRoundUpExact(size, page);
      RoundUpBounds(size, page);
    }
  }

  /** `os_commit`: the new watermark, or `None` for an error. `grants` is the OS's answer
      to `VirtualAlloc(MEM_COMMIT)`, consulted only when the watermark must move. */
  function OsCommit(r: Region, offset: nat, len: nat, grants: bool): Option<nat>
    requires 0 < r.page <= USIZE_MAX
  {
    match r.platform
    case Unix => Some(r.committed)
    case Windows =>
      match CheckedAdd(offset, len)
      case None => None
      case Some(end) =>
        match CheckedRoundUp(end, r.page)
        case None => None
        case Some(paged) =>
          var endPaged := Min(paged, r.len);
          if endPaged <= r.committed then Some(r.committed)
          else if grants then Some(endPaged)
          else None
  }

  /** For a request inside the region the overflow checks and the clamp never act, so a
      commit is declined only by the OS and only when the watermark has to move. On
      success the watermark covers the request, is page aligned, inside the region, and
      has not moved back. */
  lemma OsCommitExact(r: Region, offset: nat, len: nat, grants: bool)
    requires ValidRegion(r) && offset + len <= r.len
    ensures var paged := RoundUp(offset + len, r.page);
            var need := r.platform == Windows && paged > r.committed;
            OsCommit(r, offset, len, grants) ==
            if !need then Some(r.committed) else if grants then Some(paged) else None
    ensures var w := OsCommit(r, offset, len, grants);
            w.Some? ==> && offset + len <= w.value <= r.len
                        && r.committed <= w.value
                        && ValidRegion(r.(committed := w.value))
  {
    hide BitAnd, RoundUp;
    var end := offset + len;
    RoundUpBounds(end, r.page);
    RoundUpIsLeast(end, r.page, r.len);
    CheckedRoundUpExact(end, r.page);
  }

  /** `MmapBacked::release_pages` on Windows: the length actually handed to the OS. */
  function ClampedRelease(r: Region, ptr: nat, size: nat): nat {
    var off := if ptr <= r.base then 0 else ptr - r.base;
    var upper := Min(Min(off + size, USIZE_MAX), r.committed);
    if upper <= off then 0 else upper - off
  }

  /** The released bytes are exactly the requested bytes that are committed. */
  lemma ClampedReleaseExact(r: Region, ptr: nat, size: nat, b: nat)
    requires ValidRegion(r) && r.base <= ptr && ptr + size <= r.base + r.len
    ensures ptr <= b < ptr + ClampedRelease(r, ptr, size) <==>
            ptr <= b < ptr + size && b - r.base < r.committed
  {
  }

  /** The mapping as an object with its two mutable cells, the bytes behind it, and the
      set of offsets the OS has really made writable. */
  class MmapBacked {
    const base: nat
    const len: nat
    const page: nat
    const platform: Platform
    const bytes: array<Byte>
    var cursor: nat
    var committed: nat
    ghost var writable: set<nat>

    ghost function Model(): Region
      reads this
    {
      Region(base, len, page, platform, committed)
    }

    /** The watermark is an exact witness: the writable offsets are precisely the prefix
        below it, with no hole. */
    ghost predicate Valid()
      reads this
    {
      && ValidRegion(Model())
      && bytes.Length == len
      && cursor <= len
      && (forall b: nat :: b in writable <==> b < committed)
    }

    /** `with_flags` after `os_map` returned `mapped`; `size` has been rounded by
        `MapLength` already. */
    constructor (mapped: nat, length: nat, page: nat, platform: Platform, lazy: bool)
      requires ValidRegion(Region(mapped, length, page, platform, length))
      ensures Valid()
      ensures base == mapped && len == length && this.page == page && this.platform == platform
      ensures cursor == 0 && fresh(bytes)
      ensures committed == if platform == Windows && lazy then 0 else length
    {
      base, len, this.page, this.platform := mapped, length, page, platform;
      bytes := new Byte[length](_ => 0);
      cursor := 0;
      var start := if platform == Windows && lazy then 0 else length;
      committed := start;
      writable := Range(0, start);
    }

    /** `FixedRange::commit`. The pages between the watermark and the request are
        committed too, so no hole ever opens. */
    method Commit(offset: nat, n: nat, grants: bool) returns (ok: bool)
      requires Valid() && offset + n <= len
      modifies this`committed, this`writable
      ensures Valid()
      ensures var w := OsCommit(old(Model()), offset, n, grants);
              ok == w.Some? && Model() == old(Model()).(committed := if ok then w.value else old(committed))
      ensures old(writable) <= writable
      ensures ok ==> forall b: nat :: offset <= b < offset + n ==> b in writable
      ensures !ok ==> writable == old(writable)
    {
      OsCommitExact(Model(), offset, n, grants);
      if platform == Unix {
        return true;
      }
      var top := CheckedAdd(offset, n);
      if top == None {
        return false;
      }
      var paged := CheckedRoundUp(top.value, page);
      if paged == None {
        return false;
      }
      var endPaged := Min(paged.value, len);
      var already := committed;
      if endPaged <= already {
        return true;
      }
      if !grants {
        return false;
      }
      writable := writable + Range(already, endPaged);
      committed := endPaged;
      return true;
    }

    /** `MmapBacked`'s own `Allocator::allocate`: place, commit, and only then publish
        the cursor. */
    method Allocate(l: Layout, grants: bool) returns (r: Option<Placement>)
      requires Valid() && ValidLayout(l)
      modifies this`cursor, this`committed, this`writable
      ensures Valid()
      ensures var p := Place(base, old(cursor), len, l);
              var w := if p.Some? then OsCommit(old(Model()), p.value.off, l.size, grants) else None;
              && r == (if w.Some? then p else None)
              && cursor == (if w.Some? then p.value.end else old(cursor))
              && Model() == old(Model()).(committed := if w.Some? then w.value else old(committed))
      ensures r.Some? ==>
                && Aligned(base + r.value.off, l.align)
                && r.value.end == r.value.off + l.size
                && old(cursor) <= r.value.off
                && forall b: nat :: r.value.off <= b < r.value.end ==> b in writable
      ensures r == None ==> writable == old(writable)
    {
      var p := Place(base, cursor, len, l);
      if p == None {
        return None;
      }
      PlaceIsSound(base, cursor, len, l);
      var ok := Commit(p.value.off, l.size, grants);
      if !ok {
        return None;
      }
      cursor := p.value.end;
      return p;
    }

    /** `OsBacked::release_pages`: the offset and length passed on to the OS, if any. */
    method ReleasePages(ptr: nat, size: nat) returns (released: Option<(nat, nat)>)
      requires Valid() && base <= ptr && ptr + size <= base + len
      ensures platform == Unix ==> released == Some((ptr - base, size))
      ensures forall b: nat ::
                (released.Some? && released.value.0 <= b < released.value.0 + released.value.1) <==>
                (ptr - base <= b < ptr - base + size && b in writable)
    {
      if platform == Unix {
        return Some((ptr - base, size));
      }
      var clamped := ClampedRelease(Region(base, len, page, platform, committed), ptr, size);
      if clamped == 0 {
        return None;
      }
      return Some((ptr - base, clamped));
    }
  }
}
