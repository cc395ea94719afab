/** `BumpArena` over `MmapBacked`: what each call does to the arena's state, what every
    run keeps, and the arena object proved against both. Byte contents and the blocks a
    client may still use are part of the state. */
module BumpArenas {
  import opened Words
  import opened RawBytes
  import opened Layouts
  import opened BumpMath
  import opened Mmap

  datatype Block = Block(off: nat, size: nat, align: nat)

  /** `live` lists the blocks whose pointers are still valid, in address order; `marks`
      are the rewind targets of the open scopes, outermost first. */
  datatype Arena = Arena(region: Region, cursor: nat, bytes: seq<Byte>, live: seq<Block>, marks: seq<nat>)

  /** `block` is `None` when the call returned `AllocError`. */
  datatype Outcome = Outcome(arena: Arena, block: Option<Placement>)

  datatype Op =
    | Alloc(l: Layout, grants: bool)
    | AllocUninit(size: nat, align: nat, grants: bool)
    | Grow(i: nat, newSize: nat, growGrants: bool)
    | Reset
    | RewindTo(mark: nat)
    | OpenScope
    | CloseScope
    | Write(i: nat, pos: nat, value: Byte)

  function End(b: Block): nat { b.off + b.size }

  predicate Disjoint(b: Block, c: Block) { End(b) <= c.off || End(c) <= b.off }

  // ------------------------------------------------------------ the calls

  /** `allocate`, and `alloc_uninit` for a type that is not zero-sized. */
  function Allocation(a: Arena, l: Layout, grants: bool): (r: Outcome)
    requires Inv(a) && ValidLayout(l)
    ensures Issued(a, l, r)
  {
    AllocateFacts(a, l, grants);
    match Place(a.region.base, a.cursor, a.region.len, l)
    case None => Outcome(a, None)
    case Some(p) =>
      match OsCommit(a.region, p.off, l.size, grants)
      case None => Outcome(a, None)
      case Some(w) =>
        Outcome(a.(region := a.region.(committed := w), cursor := p.end,
                live := a.live + [Block(p.off, l.size, l.align)]), Some(p))
  }

  /** What an allocation may do: nothing, or issue an aligned block past the cursor, on
      committed pages, and move the cursor to its end. */
  ghost predicate Issued(a: Arena, l: Layout, r: Outcome) {
    if r.block == None then r.arena == a
    else
      var p, w := r.block.value, r.arena.region.committed;
      && a.cursor <= p.off && p.end == p.off + l.size <= a.region.len
      && l.align > 0 && Aligned(a.region.base + p.off, l.align)
      && a.region.committed <= w && p.end <= w && ValidRegion(a.region.(committed := w))
      && r.arena == a.(region := a.region.(committed := w), cursor := p.end,
                       live := a.live + [Block(p.off, l.size, l.align)])
  }

  /** `grow` of live block `i`: a cursor advance when the block ends at the cursor and
      the larger one fits, otherwise a fresh allocation and a copy. */
  function GrowBlock(a: Arena, i: nat, newSize: nat, grants: bool): Outcome
    requires Inv(a) && CanGrow(a, i, newSize)
  {
    var b := a.live[i];
    if End(b) == a.cursor && b.off + newSize > USIZE_MAX then
      Outcome(a, None)
    else if End(b) == a.cursor && b.off + newSize <= a.region.len then
      match OsCommit(a.region, b.off, newSize, grants)
      case None => Outcome(a, None)
      case Some(w) =>
        Outcome(a.(region := a.region.(committed := w), cursor := b.off + newSize,
                live := a.live[i := b.(size := newSize)]), Some(Placement(b.off, b.off + newSize)))
    else
      Relocation(a, i, newSize, Allocation(a, Layout(newSize, b.align), grants))
  }

  /** The copying half of `grow`: the old bytes move to the fresh block, the old pointer
      is dead and its space is not reclaimed. */
  function Relocation(a: Arena, i: nat, newSize: nat, issued: Outcome): Outcome
    requires Inv(a) && CanGrow(a, i, newSize)
    requires Issued(a, Layout(newSize, a.live[i].align), issued)
  {
    var b := a.live[i];
    if issued.block == None then issued
    else
      var moved := a.bytes[b.off..End(b)];
      Outcome(issued.arena.(bytes := Splice(a.bytes, issued.block.value.off, moved),
              live := issued.arena.live[..i] + issued.arena.live[i + 1..]), issued.block)
  }

  predicate CanGrow(a: Arena, i: nat, newSize: nat) {
    i < |a.live| && a.live[i].size <= newSize && ValidLayout(Layout(newSize, a.live[i].align))
  }

  /** Blocks are in address order, so those below a mark are a prefix. */
  function KeepBelow(live: seq<Block>, mark: nat): (r: seq<Block>)
    ensures r <= live
    ensures r != [] ==> End(r[|r| - 1]) <= mark
  {
    if live == [] || End(live[|live| - 1]) <= mark then live
    else KeepBelow(live[..|live| - 1], mark)
  }

  /** `rewind_to`: whatever was issued past the mark is dead. */
  function Rewind(a: Arena, mark: nat): Arena {
    a.(cursor := mark, live := KeepBelow(a.live, mark))
  }

  /** Which calls the borrow checker lets a client make: while a scope is open the arena
      is mutably borrowed, so only allocation through the scope and nesting remain. */
  predicate Enabled(a: Arena, op: Op) {
    match op
    case Alloc(l, _) => ValidLayout(l)
    case AllocUninit(size, align, _) => size == 0 || ValidLayout(Layout(size, align))
    case Grow(i, newSize, _) => a.marks == [] && CanGrow(a, i, newSize)
    case Reset => a.marks == []
    case RewindTo(mark) => a.marks == [] && mark <= a.cursor
    case OpenScope => true
    case CloseScope => a.marks != []
    case Write(i, pos, _) => i < |a.live| && pos < a.live[i].size
  }

  lemma AllocateFacts(a: Arena, l: Layout, grants: bool)
    requires Inv(a) && ValidLayout(l)
    ensures var p := Place(a.region.base, a.cursor, a.region.len, l);
            p.Some? ==>
              && Aligned(a.region.base + p.value.off, l.align)
              && a.cursor <= p.value.off < p.value.end == p.value.off + l.size <= a.region.len
              && var w := OsCommit(a.region, p.value.off, l.size, grants);
                 w.Some? ==> && p.value.end <= w.value && a.region.committed <= w.value
                             && ValidRegion(a.region.(committed := w.value))
  {
    hide BitAnd;
    var p := Place(a.region.base, a.cursor, a.region.len, l);
    if p.Some? {
      PlaceIsSound(a.region.base, a.cursor, a.region.len, l);
      OsCommitExact(a.region, p.value.off, l.size, grants);
    }
  }

  // ------------------------------------------------------------ what every run keeps

  ghost predicate InOrder(live: seq<Block>) {
    forall i, j :: 0 <= i < j < |live| ==> End(live[i]) <= live[j].off
  }

  /** A live block is a real block: not empty, aligned, below the cursor, and on pages the
      OS has committed. */
  ghost predicate Sound(a: Arena, b: Block) {
    && 0 < b.size && IsPow2(b.align) && b.align <= USIZE_MAX
    && Aligned(a.region.base + b.off, b.align)
    && End(b) <= a.cursor && End(b) <= a.region.committed
  }

  ghost predicate Inv(a: Arena) {
    && ValidRegion(a.region) && a.region.base + a.region.len <= USIZE_MAX
    && |a.bytes| == a.region.len
    && a.cursor <= a.region.len
    && InOrder(a.live)
    && (forall i :: 0 <= i < |a.live| ==> Sound(a, a.live[i]))
    && (forall k :: 0 <= k < |a.marks| ==> a.marks[k] <= a.cursor)
    && (forall j, k :: 0 <= j < k < |a.marks| ==> a.marks[j] <= a.marks[k])
  }

  lemma IssuedKeepsInv(a: Arena, l: Layout, r: Outcome)
    requires Inv(a) && ValidLayout(l) && Issued(a, l, r)
    ensures Inv(r.arena)
  {
    forall i | 0 <= i < |r.arena.live|
      ensures Sound(r.arena, r.arena.live[i])
    {
      if i < |a.live| { assert Sound(a, a.live[i]); }
    }
  }

  lemma {:induction false} KeepBelowKeepsAllBelow(live: seq<Block>, mark: nat, n: nat)
    requires InOrder(live) && n <= |live|
    requires forall i :: 0 <= i < n ==> End(live[i]) <= mark
    ensures live[..n] <= KeepBelow(live, mark)
  {
    if n < |live| && End(live[|live| - 1]) > mark {
      KeepBelowKeepsAllBelow(live[..|live| - 1], mark, n);
      assert live[..n] == live[..|live| - 1][..n];
    }
  }

  lemma KeepBelowEnds(live: seq<Block>, mark: nat)
    requires InOrder(live) && forall i :: 0 <= i < |live| ==> 0 < live[i].size
    ensures forall i :: 0 <= i < |KeepBelow(live, mark)| ==> End(KeepBelow(live, mark)[i]) <= mark
  {
    var r := KeepBelow(live, mark);
    forall i | 0 <= i < |r|
      ensures End(r[i]) <= mark
    {
      if i < |r| - 1 { assert End(live[i]) <= live[|r| - 1].off; }
    }
  }

  lemma GrowInPlaceIsLast(a: Arena, i: nat)
    requires Inv(a) && i < |a.live| && End(a.live[i]) == a.cursor
    ensures i == |a.live| - 1
  {
    assert Sound(a, a.live[|a.live| - 1]);
  }

  lemma GrowInPlaceKeepsInv(a: Arena, i: nat, newSize: nat, grants: bool)
    requires Inv(a) && CanGrow(a, i, newSize) && a.marks == []
    requires End(a.live[i]) == a.cursor && a.live[i].off + newSize <= a.region.len
    ensures Inv(GrowBlock(a, i, newSize, grants).arena)
  {
    hide BitAnd, RoundUp, Allocation;
    OsCommitExact(a.region, a.live[i].off, newSize, grants);
    GrowInPlaceIsLast(a, i);
    var r := GrowBlock(a, i, newSize, grants).arena;
    forall k | 0 <= k < |r.live|
      ensures Sound(r, r.live[k])
    {
      assert Sound(a, a.live[k]);
    }
  }

  lemma RelocateKeepsInv(a: Arena, i: nat, newSize: nat, issued: Outcome)
    requires Inv(a) && CanGrow(a, i, newSize)
    requires Issued(a, Layout(newSize, a.live[i].align), issued)
    ensures Inv(Relocation(a, i, newSize, issued).arena)
  {
    hide BitAnd, RoundUp, Aligned, IsPow2, ValidRegion;
    IssuedKeepsInv(a, Layout(newSize, a.live[i].align), issued);
    if issued.block.Some? {
      var m := issued.arena;
      var r := Relocation(a, i, newSize, issued).arena;
      forall k | 0 <= k < |r.live|
        ensures Sound(r, r.live[k])
        ensures r.live[k] == m.live[if k < i then k else k + 1]
      {
        assert Sound(m, m.live[if k < i then k else k + 1]);
      }
    }
  }

  lemma GrowKeepsInv(a: Arena, i: nat, newSize: nat, grants: bool)
    requires Inv(a) && CanGrow(a, i, newSize) && a.marks == []
    ensures Inv(GrowBlock(a, i, newSize, grants).arena)
    ensures var r := GrowBlock(a, i, newSize, grants).arena.region;
            r == a.region.(committed := r.committed) && a.region.committed <= r.committed
  {
    if End(a.live[i]) == a.cursor && a.live[i].off + newSize <= a.region.len {
      OsCommitExact(a.region, a.live[i].off, newSize, grants);
      GrowInPlaceKeepsInv(a, i, newSize, grants);
    } else {
      RelocateKeepsInv(a, i, newSize, Allocation(a, Layout(newSize, a.live[i].align), grants));
    }
  }

  lemma OpenKeepsInv(a: Arena)
    requires Inv(a)
    ensures Inv(a.(marks := a.marks + [a.cursor]))
  {
  }

  lemma WriteKeepsInv(a: Arena, i: nat, pos: nat, value: Byte)
    requires Inv(a) && i < |a.live| && pos < a.live[i].size
    ensures a.live[i].off + pos < |a.bytes|
    ensures Inv(a.(bytes := a.bytes[a.live[i].off + pos := value]))
  {
    assert Sound(a, a.live[i]);
    var r := a.(bytes := a.bytes[a.live[i].off + pos := value]);
    assert forall k :: 0 <= k < |a.live| ==> Sound(a, a.live[k]) && Sound(r, a.live[k]);
  }

  lemma RewindKeepsInv(a: Arena, mark: nat, marks: seq<nat>)
    requires Inv(a) && mark <= a.cursor && marks <= a.marks
    requires forall k :: 0 <= k < |marks| ==> marks[k] <= mark
    ensures Inv(Rewind(a, mark).(marks := marks))
  {
    hide Aligned, IsPow2, ValidRegion;
    KeepBelowEnds(a.live, mark);
  }

  /** Every call keeps the whole invariant: live blocks stay aligned, in range, committed
      and pairwise disjoint; the mapping stays where it is and its watermark never moves
      back. */
  function Apply(a: Arena, op: Op): (r: Arena)
    requires Inv(a) && Enabled(a, op)
    ensures Inv(r)
    ensures r.region == a.region.(committed := r.region.committed)
    ensures a.region.committed <= r.region.committed
  {
    match op
    case Alloc(l, grants) =>
      IssuedKeepsInv(a, l, Allocation(a, l, grants));
      Allocation(a, l, grants).arena
    case AllocUninit(size, align, grants) =>
      if size == 0 then a
      else
        IssuedKeepsInv(a, Layout(size, align), Allocation(a, Layout(size, align), grants));
        Allocation(a, Layout(size, align), grants).arena
    case Grow(i, newSize, grants) =>
      GrowKeepsInv(a, i, newSize, grants);
      GrowBlock(a, i, newSize, grants).arena
    case Reset => a.(cursor := 0, live := [])
    case RewindTo(mark) =>
      RewindKeepsInv(a, mark, a.marks);
      Rewind(a, mark)
    case OpenScope =>
      OpenKeepsInv(a);
      a.(marks := a.marks + [a.cursor])
    case CloseScope =>
      var rest := a.marks[..|a.marks| - 1];
      RewindKeepsInv(a, a.marks[|a.marks| - 1], rest);
      Rewind(a, a.marks[|a.marks| - 1]).(marks := rest)
    case Write(i, pos, value) =>
      WriteKeepsInv(a, i, pos, value);
      a.(bytes := a.bytes[a.live[i].off + pos := value])
  }

  /** A run is a list of calls, each allowed where it happens. */
  ghost predicate Allowed(a: Arena, ops: seq<Op>)
    requires Inv(a)
    decreases |ops|
  {
    ops == [] ||
    (Enabled(a, ops[0]) && Allowed(Apply(a, ops[0]), ops[1..]))
  }

  ghost function Run(a: Arena, ops: seq<Op>): Arena
    requires Inv(a) && Allowed(a, ops)
    decreases |ops|
  {
    if ops == [] then a else Run(Apply(a, ops[0]), ops[1..])
  }

  /** Whole-run safety: after any allowed run the live blocks are aligned, in range,
      pairwise disjoint and committed; and a block live at any earlier point of the run
      is still on committed pages, dead or not, across resets and rewinds. */
  lemma {:induction false} RunSafe(a: Arena, ops: seq<Op>)
    requires Inv(a) && Allowed(a, ops)
    ensures Inv(Run(a, ops))
    ensures a.region.committed <= Run(a, ops).region.committed
    ensures forall b :: b in a.live ==> End(b) <= Run(a, ops).region.committed
    ensures forall i, j :: 0 <= i < j < |Run(a, ops).live| ==>
              Disjoint(Run(a, ops).live[i], Run(a, ops).live[j])
    decreases |ops|
  {
    if ops != [] {
      RunSafe(Apply(a, ops[0]), ops[1..]);
    }
  }

  // ------------------------------------------------------------ exact failure and grow

  /** The least offset at or past the cursor whose address is aligned. */
  function NextOffset(a: Arena, align: nat): int
    requires align > 0
  {
    RoundUp(a.region.base + a.cursor, align) - a.region.base
  }

  /** Pages below `end` are still to be committed. */
  predicate NeedsOs(a: Arena, end: nat)
    requires a.region.page > 0
  {
    a.region.platform == Windows && RoundUp(end, a.region.page) > a.region.committed
  }

  /** The watermark once everything below `end` is committed. */
  function Covering(a: Arena, end: nat): int
    requires a.region.page > 0
  {
    if NeedsOs(a, end) then RoundUp(end, a.region.page) else a.region.committed
  }

  /** The aligned block does not fit the rest of the region, or the OS declines pages it
      needs. */
  ghost predicate AllocFails(a: Arena, l: Layout, grants: bool)
    requires Inv(a) && ValidLayout(l)
  {
    NextOffsetBounds(a, l);
    var end := NextOffset(a, l.align) + l.size;
    end > a.region.len || (NeedsOs(a, end) && !grants)
  }

  lemma NextOffsetBounds(a: Arena, l: Layout)
    requires Inv(a) && ValidLayout(l)
    ensures 0 < l.align && 0 < l.size && 0 < a.region.page && NextOffset(a, l.align) >= a.cursor
  {
    RoundUpBounds(a.region.base + a.cursor, l.align);
  }

  lemma AllocateFailsExactly(a: Arena, l: Layout, grants: bool)
    requires Inv(a) && ValidLayout(l)
    ensures Allocation(a, l, grants).block == None <==> AllocFails(a, l, grants)
    ensures AllocFails(a, l, grants) ==> Allocation(a, l, grants).arena == a
    ensures 0 < l.align
    ensures !AllocFails(a, l, grants) ==>
              var r, end := Allocation(a, l, grants), NextOffset(a, l.align) + l.size;
              && r.block == Some(Placement(NextOffset(a, l.align), end))
              && a.region.page > 0 && r.arena.region.committed == Covering(a, end)
  {
    hide BitAnd, RoundUp;
    NextOffsetBounds(a, l);
    NoSpuriousOverflow(a.region.base, a.cursor, a.region.len, l);
    PlaceExact(a.region.base, a.cursor, a.region.len, l);
    var p := Place(a.region.base, a.cursor, a.region.len, l);
    if p.Some? {
      OsCommitExact(a.region, p.value.off, l.size, grants);
    }
  }

  /** Growing the block that ends at the cursor, with the OS granting its pages: it
      succeeds, in place, exactly when the larger block fits the region. When it does not
      fit, the relocating fall-through cannot succeed either and changes nothing. */
  lemma LastBlockGrowExact(a: Arena, i: nat, newSize: nat)
    requires Inv(a) && CanGrow(a, i, newSize) && End(a.live[i]) == a.cursor
    ensures var r := GrowBlock(a, i, newSize, true);
            var off := a.live[i].off;
            if off + newSize <= a.region.len
            then r.block == Some(Placement(off, off + newSize)) && r.arena.bytes == a.bytes
            else r == Outcome(a, None)
  {
    var b := a.live[i];
    OsCommitWhenInside(a.region, b.off, newSize);
    if b.off + newSize > a.region.len {
      AllocateFailsExactly(a, Layout(newSize, b.align), true);
      NextOffsetBounds(a, Layout(newSize, b.align));
    }
  }

  lemma OsCommitWhenInside(r: Region, offset: nat, len: nat)
    requires ValidRegion(r)
    ensures offset + len <= r.len ==> OsCommit(r, offset, len, true).Some?
  {
    if offset + len <= r.len { OsCommitExact(r, offset, len, true); }
  }

  /** What a grow of block `i` owes to the client: on success the old contents are a
      prefix of the new block, and live block `j` keeps its place and its bytes and does
      not overlap the new block; on failure nothing has changed. */
  ghost predicate GrowKeeps(a: Arena, i: nat, newSize: nat, r: Outcome, j: nat)
    requires Inv(a) && CanGrow(a, i, newSize) && j < |a.live|
  {
    var b, other := a.live[i], a.live[j];
    if r.block == None then r.arena == a
    else
      var p := r.block.value;
      && p.end == p.off + newSize <= |r.arena.bytes| == |a.bytes|
      && Block(p.off, newSize, b.align) in r.arena.live
      && r.arena.bytes[p.off..p.off + b.size] == a.bytes[b.off..End(b)]
      && other in r.arena.live
      && r.arena.bytes[other.off..End(other)] == a.bytes[other.off..End(other)]
      && (End(other) <= p.off || p.end <= other.off)
  }

  lemma RelocateKeeps(a: Arena, i: nat, newSize: nat, issued: Outcome, j: nat)
    requires Inv(a) && CanGrow(a, i, newSize) && j < |a.live| && j != i
    requires Issued(a, Layout(newSize, a.live[i].align), issued)
    ensures GrowKeeps(a, i, newSize, Relocation(a, i, newSize, issued), j)
  {
    if issued.block.Some? {
      var b, other, p := a.live[i], a.live[j], issued.block.value;
      var after := Relocation(a, i, newSize, issued).arena;
      assert Sound(a, b) && Sound(a, other);
      assert after.live[|after.live| - 1] == Block(p.off, newSize, b.align);
      assert after.live[if j < i then j else j - 1] == other;
      SpliceFacts(a.bytes, p.off, a.bytes[b.off..End(b)], other.off, End(other));
    }
  }

  lemma SpliceFacts(s: seq<Byte>, at: nat, data: seq<Byte>, lo: nat, hi: nat)
    requires at + |data| <= |s| && lo <= hi <= at
    ensures Splice(s, at, data)[at..at + |data|] == data
    ensures Splice(s, at, data)[lo..hi] == s[lo..hi]
  {
  }

  /** Every successful grow hands back a live block of the new size that starts with the
      old contents, whatever else is live. */
  lemma GrowKeepsPrefix(a: Arena, i: nat, newSize: nat, grants: bool)
    requires Inv(a) && CanGrow(a, i, newSize)
    requires GrowBlock(a, i, newSize, grants).block.Some?
    ensures var r, b := GrowBlock(a, i, newSize, grants), a.live[i];
            var p := r.block.value;
            && p.end == p.off + newSize <= |r.arena.bytes| && b.off <= End(b) <= |a.bytes|
            && Block(p.off, newSize, b.align) in r.arena.live
            && r.arena.bytes[p.off..p.off + b.size] == a.bytes[b.off..End(b)]
  {
    hide BitAnd, RoundUp, Allocation, OsCommit;
    var b := a.live[i];
    var r := GrowBlock(a, i, newSize, grants);
    assert Sound(a, b);
    if End(b) == a.cursor && b.off + newSize <= a.region.len {
      assert r.arena.live[i] == Block(b.off, newSize, b.align);
    } else {
      var p := r.block.value;
      assert r.arena.live[|r.arena.live| - 1] == Block(p.off, newSize, b.align);
      SpliceFacts(a.bytes, p.off, a.bytes[b.off..End(b)], 0, 0);
    }
  }

  /** Every grow, in place or relocating, keeps that promise to every other live block. */
  lemma GrowPreserves(a: Arena, i: nat, newSize: nat, grants: bool, j: nat)
    requires Inv(a) && CanGrow(a, i, newSize) && j < |a.live| && j != i
    ensures GrowKeeps(a, i, newSize, GrowBlock(a, i, newSize, grants), j)
  {
    var b, other := a.live[i], a.live[j];
    if End(b) == a.cursor && b.off + newSize <= a.region.len {
      assert Sound(a, b) && Sound(a, other);
      GrowInPlaceIsLast(a, i);
      var r := GrowBlock(a, i, newSize, grants);
      if r.block.Some? {
        assert r.arena.live[i] == Block(b.off, newSize, b.align);
        assert r.arena.live[j] == other;
      }
    } else {
      RelocateKeeps(a, i, newSize, Allocation(a, Layout(newSize, b.align), grants), j);
    }
  }

  /** The growth of block `i` fails: in place for want of pages, elsewhere as any
      allocation of the new size does. */
  ghost predicate GrowFails(a: Arena, i: nat, newSize: nat, grants: bool)
    requires Inv(a) && CanGrow(a, i, newSize)
  {
    var b := a.live[i];
    if GrowsInPlace(a, i, newSize) then a.region.page > 0 && NeedsOs(a, b.off + newSize) && !grants
    else AllocFails(a, Layout(newSize, b.align), grants)
  }

  predicate GrowsInPlace(a: Arena, i: nat, newSize: nat)
    requires i < |a.live|
  {
    End(a.live[i]) == a.cursor && a.live[i].off + newSize <= a.region.len
  }

  // ------------------------------------------------------------ what each step does

  /** `allocate`, and `alloc_uninit` of a type with a size: refused exactly when the block
      does not fit or its pages are declined, and then nothing changes; otherwise the block
      is live at the next aligned offset, its end is the cursor, its pages are committed,
      and no byte, mark or other block has changed. */
  lemma AllocStepExact(a: Arena, op: Op, l: Layout, grants: bool)
    requires Inv(a) && ValidLayout(l)
    requires op == Alloc(l, grants) || op == AllocUninit(l.size, l.align, grants)
    ensures Enabled(a, op) && 0 < l.align && a.region.page > 0
    ensures var r := Apply(a, op);
            && (AllocFails(a, l, grants) ==> r == a)
            && (!AllocFails(a, l, grants) ==>
                  var off := NextOffset(a, l.align);
                  && r.cursor == off + l.size <= r.region.committed == Covering(a, off + l.size)
                  && off >= 0 && r.live == a.live + [Block(off, l.size, l.align)]
                  && r.bytes == a.bytes && r.marks == a.marks)
  {
    hide BitAnd, RoundUp, NextOffset, NeedsOs;
    AllocateFailsExactly(a, l, grants);
    NextOffsetBounds(a, l);
  }

  /** Where the grown block goes. */
  function GrowOffset(a: Arena, i: nat, newSize: nat): int
    requires i < |a.live| && a.live[i].align > 0
  {
    if GrowsInPlace(a, i, newSize) then a.live[i].off else NextOffset(a, a.live[i].align)
  }

  /** Block `i` is live with its new size at `off` and ends at the cursor, its pages are
      committed, its bytes are copied, and every other block and byte is where it was. */
  ghost predicate GrownAt(a: Arena, i: nat, newSize: nat, off: int, r: Arena)
    requires i < |a.live|
  {
    var b := a.live[i];
    && 0 <= off && b.off <= End(b) <= |a.bytes| == |r.bytes| && off + b.size <= |r.bytes|
    && r.cursor == off + newSize
    && a.region.page > 0 && r.region == a.region.(committed := r.region.committed)
    && r.region.committed == Covering(a, off + newSize)
    && r.live == a.live[..i] + a.live[i + 1..] + [Block(off, newSize, b.align)]
    && r.bytes[off..off + b.size] == a.bytes[b.off..End(b)]
    && (forall k :: 0 <= k < |a.bytes| && !(off <= k < off + b.size) ==> r.bytes[k] == a.bytes[k])
    && r.marks == a.marks
  }

  /** `grow`: refused exactly as described, and then nothing changes; otherwise the block is
      grown in place or at the next aligned offset. */
  lemma GrowStepExact(a: Arena, i: nat, newSize: nat, grants: bool)
    requires Inv(a) && Enabled(a, Grow(i, newSize, grants))
    ensures a.live[i].align > 0
    ensures var r, off := Apply(a, Grow(i, newSize, grants)), GrowOffset(a, i, newSize);
            if GrowFails(a, i, newSize, grants) then r == a else GrownAt(a, i, newSize, off, r)
    ensures var block, off := GrowBlock(a, i, newSize, grants).block, GrowOffset(a, i, newSize);
            if GrowFails(a, i, newSize, grants) then block == None
            else off >= 0 && block == Some(Placement(off, off + newSize))
  {
    GrowBlockExact(a, i, newSize, grants);
    hide *;
    GrowIsBlock(a, i, newSize, grants);
  }

  lemma GrowIsBlock(a: Arena, i: nat, newSize: nat, grants: bool)
    requires Inv(a) && Enabled(a, Grow(i, newSize, grants))
    ensures Apply(a, Grow(i, newSize, grants)) == GrowBlock(a, i, newSize, grants).arena
  {
  }

  lemma GrowBlockExact(a: Arena, i: nat, newSize: nat, grants: bool)
    requires Inv(a) && Enabled(a, Grow(i, newSize, grants))
    ensures a.live[i].align > 0 && GrowOffset(a, i, newSize) >= 0
    ensures var r, off := GrowBlock(a, i, newSize, grants), GrowOffset(a, i, newSize);
            if GrowFails(a, i, newSize, grants) then r == Outcome(a, None)
            else r.block == Some(Placement(off, off + newSize)) && GrownAt(a, i, newSize, off, r.arena)
  {
    hide BitAnd, RoundUp, NextOffset, GrowBlock, GrownAt, AllocFails, NeedsOs;
    GrowFacts(a, i, newSize);
    if GrowsInPlace(a, i, newSize) {
      GrowHere(a, i, newSize, grants);
    } else {
      GrowElsewhere(a, i, newSize, grants);
    }
  }

  lemma GrowFacts(a: Arena, i: nat, newSize: nat)
    requires Inv(a) && CanGrow(a, i, newSize)
    ensures var b := a.live[i];
            && 0 < b.align && 0 < newSize && 0 < a.region.page
            && a.cursor <= NextOffset(a, b.align)
            && b.off <= End(b) <= a.cursor <= a.region.len == |a.bytes| <= USIZE_MAX
    ensures End(a.live[i]) == a.cursor ==> a.live[i + 1..] == []
  {
    hide RoundUp;
    assert Sound(a, a.live[i]);
    NextOffsetBounds(a, Layout(newSize, a.live[i].align));
    if End(a.live[i]) == a.cursor { GrowInPlaceIsLast(a, i); }
  }

  lemma GrowHere(a: Arena, i: nat, newSize: nat, grants: bool)
    requires Inv(a) && CanGrow(a, i, newSize) && GrowsInPlace(a, i, newSize)
    ensures a.region.page > 0
    ensures var r, b := GrowBlock(a, i, newSize, grants), a.live[i];
            if NeedsOs(a, b.off + newSize) && !grants then r == Outcome(a, None)
            else r.block == Some(Placement(b.off, b.off + newSize)) && GrownAt(a, i, newSize, b.off, r.arena)
  {
    GrowFacts(a, i, newSize);
    OsCommitExact(a.region, a.live[i].off, newSize, grants);
    hide BitAnd, RoundUp, Allocation, OsCommit, Inv, Aligned, IsPow2, ValidLayout, NextOffset;
    var b := a.live[i];
    assert a.live[i := Block(b.off, newSize, b.align)] == a.live[..i] + [Block(b.off, newSize, b.align)];
  }

  lemma GrowElsewhere(a: Arena, i: nat, newSize: nat, grants: bool)
    requires Inv(a) && CanGrow(a, i, newSize) && !GrowsInPlace(a, i, newSize)
    ensures a.live[i].align > 0
    ensures var r, b := GrowBlock(a, i, newSize, grants), a.live[i];
            var off := NextOffset(a, b.align);
            if AllocFails(a, Layout(newSize, b.align), grants) then r == Outcome(a, None)
            else 0 <= off && r.block == Some(Placement(off, off + newSize)) && GrownAt(a, i, newSize, off, r.arena)
  {
    var b := a.live[i];
    var l := Layout(newSize, b.align);
    GrowFacts(a, i, newSize);
    AllocateFailsExactly(a, l, grants);
    hide BitAnd, RoundUp, NextOffset, Allocation, Inv, Aligned, IsPow2, ValidLayout, NeedsOs, Splice;
    var issued := Allocation(a, l, grants);
    if issued.block.Some? {
      var copy := Block(issued.block.value.off, newSize, b.align);
      assert (a.live + [copy])[..i] + (a.live + [copy])[i + 1..] == a.live[..i] + a.live[i + 1..] + [copy];
      SpliceFacts(a.bytes, copy.off, a.bytes[b.off..End(b)], 0, 0);
    }
  }

  lemma GrowRefusal(a: Arena, i: nat, newSize: nat, grants: bool)
    requires Inv(a) && Enabled(a, Grow(i, newSize, grants))
    ensures GrowBlock(a, i, newSize, grants).block == None <==> GrowFails(a, i, newSize, grants)
  {
    GrowStepExact(a, i, newSize, grants);
  }

  /** `reset`, `rewind_to` and the drop of a scope: the cursor is the mark, exactly the
      blocks past it are dead, and nothing else has changed. */
  lemma RewindStepExact(a: Arena, op: Op, mark: nat)
    requires Inv(a) && Enabled(a, op)
    requires match op
             case Reset => mark == 0
             case RewindTo(m) => mark == m
             case CloseScope => mark == a.marks[|a.marks| - 1]
             case _ => false
    ensures var r := Apply(a, op);
            && r.cursor == mark && r.live <= a.live
            && (forall b :: b in r.live <==> b in a.live && End(b) <= mark)
            && r.region == a.region && r.bytes == a.bytes
            && r.marks == if op.CloseScope? then a.marks[..|a.marks| - 1] else a.marks
  {
    hide Aligned, IsPow2, ValidRegion, BitAnd, RoundUp, Allocation, GrowBlock;
    var r := Apply(a, op);
    if op.Reset? {
      assert forall b :: b in a.live ==> 0 < b.size by {
        forall b | b in a.live
          ensures 0 < b.size
        {
          var i :| 0 <= i < |a.live| && a.live[i] == b;
          assert Sound(a, a.live[i]);
        }
      }
    } else {
      assert forall i :: 0 <= i < |a.live| ==> 0 < a.live[i].size by {
        forall i | 0 <= i < |a.live|
          ensures 0 < a.live[i].size
        {
          assert Sound(a, a.live[i]);
        }
      }
      KeepsExactlyBelow(a.live, mark);
    }
  }

  lemma KeepsExactlyBelow(live: seq<Block>, mark: nat)
    requires InOrder(live) && forall i :: 0 <= i < |live| ==> 0 < live[i].size
    ensures forall b :: b in KeepBelow(live, mark) <==> b in live && End(b) <= mark
  {
    hide KeepBelow;
    var r := KeepBelow(live, mark);
    KeepBelowEnds(live, mark);
    forall b | b in live && End(b) <= mark
      ensures b in r
    {
      var i :| 0 <= i < |live| && live[i] == b;
      forall k | 0 <= k < i + 1
        ensures End(live[k]) <= mark
      {
        if k < i { assert End(live[k]) <= live[i].off; }
      }
      KeepBelowKeepsAllBelow(live, mark, i + 1);
      assert live[..i + 1][i] == b;
    }
  }

  /** Opening a scope marks the cursor, a write changes one byte, and a zero-sized type
      consumes nothing. */
  lemma OtherStepExact(a: Arena, op: Op)
    requires Inv(a) && Enabled(a, op) && (op.OpenScope? || op.Write? || (op.AllocUninit? && op.size == 0))
    ensures var r := Apply(a, op);
            && r.cursor == a.cursor && r.live == a.live && r.region == a.region && |r.bytes| == |a.bytes|
            && (op.OpenScope? ==> r.marks == a.marks + [a.cursor] && r.bytes == a.bytes)
            && (op.AllocUninit? ==> r == a)
            && (op.Write? ==>
                  var at := a.live[op.i].off + op.pos;
                  && r.marks == a.marks && at < |a.bytes| && r.bytes[at] == op.value
                  && forall k :: 0 <= k < |a.bytes| && k != at ==> r.bytes[k] == a.bytes[k])
  {
    if op.Write? { WriteKeepsInv(a, op.i, op.pos, op.value); }
  }

  // ------------------------------------------------------------ scopes

  /** A scope body: allowed calls, never closing more scopes than it entered (`depth` is
      the number of marks to stay above), writing only to blocks issued inside it. */
  ghost predicate ScopeBody(a: Arena, ops: seq<Op>, depth: nat, outer: nat)
    requires Inv(a)
    decreases |ops|
  {
    ops == [] ||
    (&& Enabled(a, ops[0])
     && (ops[0].CloseScope? ==> |a.marks| > depth)
     && (ops[0].Write? ==> ops[0].i >= outer)
     && ScopeBody(Apply(a, ops[0]), ops[1..], depth, outer))
  }

  lemma {:induction false} ScopeBodyAllowed(a: Arena, ops: seq<Op>, depth: nat, outer: nat)
    requires Inv(a) && ScopeBody(a, ops, depth, outer)
    ensures Allowed(a, ops)
    decreases |ops|
  {
    if ops != [] {
      ScopeBodyAllowed(Apply(a, ops[0]), ops[1..], depth, outer);
    }
  }

  /** `a` is a state inside a scope that was entered in state `o`. */
  ghost predicate Inside(o: Arena, a: Arena) {
    && Inv(o) && Inv(a)
    && o.region.base == a.region.base && o.region.len == a.region.len
    && |a.marks| > |o.marks| && a.marks[..|o.marks| + 1] == o.marks + [o.cursor]
    && o.cursor <= a.cursor
    && o.live <= a.live
    && (forall k :: |o.live| <= k < |a.live| ==> o.cursor <= a.live[k].off)
    && a.bytes[..o.cursor] == o.bytes[..o.cursor]
  }

  lemma InsideIssued(o: Arena, a: Arena, l: Layout, r: Outcome)
    requires Inside(o, a) && ValidLayout(l) && Issued(a, l, r)
    ensures Inside(o, r.arena)
  {
    IssuedKeepsInv(a, l, r);
  }

  lemma InsideRewind(o: Arena, a: Arena)
    requires Inside(o, a) && |a.marks| > |o.marks| + 1
    ensures Inside(o, Apply(a, CloseScope))
  {
    hide BitAnd, RoundUp, Allocation, GrowBlock;
    var mark, rest := a.marks[|a.marks| - 1], a.marks[..|a.marks| - 1];
    assert rest[..|o.marks| + 1] == a.marks[..|o.marks| + 1];
    assert o.cursor <= mark by {
      assert a.marks[|o.marks|] == (o.marks + [o.cursor])[|o.marks|];
    }
    KeepsOuter(o, a, mark);
  }

  /** Rewinding to a mark inside the scope spares every block older than the scope. */
  lemma KeepsOuter(o: Arena, a: Arena, mark: nat)
    requires Inside(o, a) && o.cursor <= mark
    ensures o.live <= KeepBelow(a.live, mark)
  {
    forall i | 0 <= i < |o.live|
      ensures End(a.live[i]) <= mark
    {
      assert Sound(o, o.live[i]);
    }
    KeepBelowKeepsAllBelow(a.live, mark, |o.live|);
    assert a.live[..|o.live|] == o.live;
  }

  lemma InsideStep(o: Arena, a: Arena, op: Op)
    requires Inside(o, a) && Enabled(a, op)
    requires op.CloseScope? ==> |a.marks| > |o.marks| + 1
    requires op.Write? ==> op.i >= |o.live|
    ensures Inside(o, Apply(a, op))
  {
    if op.Alloc? {
      InsideIssued(o, a, op.l, Allocation(a, op.l, op.grants));
    } else if op.AllocUninit? {
      if op.size != 0 {
        InsideIssued(o, a, Layout(op.size, op.align), Allocation(a, Layout(op.size, op.align), op.grants));
      }
    } else if op.CloseScope? {
      InsideRewind(o, a);
    } else if op.OpenScope? {
      var after := Apply(a, op);
      assert after.marks[..|o.marks| + 1] == a.marks[..|o.marks| + 1];
    }
  }

  lemma {:induction false} InsideRun(o: Arena, a: Arena, ops: seq<Op>)
    requires Inside(o, a) && ScopeBody(a, ops, |o.marks| + 1, |o.live|)
    ensures Allowed(a, ops) && Inside(o, Run(a, ops))
    decreases |ops|
  {
    ScopeBodyAllowed(a, ops, |o.marks| + 1, |o.live|);
    if ops != [] {
      InsideStep(o, a, ops[0]);
      InsideRun(o, Apply(a, ops[0]), ops[1..]);
    }
  }

  lemma DropsInner(o: Arena, a: Arena)
    requires Inside(o, a)
    ensures |KeepBelow(a.live, o.cursor)| <= |o.live|
  {
    var kept := KeepBelow(a.live, o.cursor);
    if |kept| > 0 {
      assert Sound(a, a.live[|kept| - 1]);
      assert kept[|kept| - 1] == a.live[|kept| - 1];
    }
  }

  /** `r` is `o` again, except that the watermark may have moved and that bytes above
      the cursor are arbitrary. */
  ghost predicate Restored(o: Arena, r: Arena) {
    && r.cursor == o.cursor && r.marks == o.marks && r.live == o.live
    && |r.bytes| == |o.bytes| && o.cursor <= |o.bytes|
    && r.bytes[..o.cursor] == o.bytes[..o.cursor]
  }

  lemma SliceOfPrefix(s: seq<Byte>, n: nat, lo: nat, hi: nat)
    requires lo <= hi <= n <= |s|
    ensures s[..n][lo..hi] == s[lo..hi]
  {
  }

  lemma RestoredBlocks(o: Arena, r: Arena)
    requires Inv(o) && Inv(r) && Restored(o, r)
    ensures forall b :: b in o.live ==> r.bytes[b.off..End(b)] == o.bytes[b.off..End(b)]
  {
    forall b | b in o.live
      ensures r.bytes[b.off..End(b)] == o.bytes[b.off..End(b)]
    {
      SliceOfPrefix(r.bytes, o.cursor, b.off, End(b));
      SliceOfPrefix(o.bytes, o.cursor, b.off, End(b));
    }
  }

  lemma CloseRestores(o: Arena, inner: Arena)
    requires Inside(o, inner) && |inner.marks| == |o.marks| + 1
    ensures Restored(o, Apply(inner, CloseScope))
  {
    hide BitAnd, RoundUp, Allocation, GrowBlock, Aligned, IsPow2, ValidRegion, KeepBelow;
    assert inner.marks == o.marks + [o.cursor];
    KeepsOuter(o, inner, o.cursor);
    DropsInner(o, inner);
  }

  /** Opening a scope, running any body with properly nested scopes of its own, and
      dropping the scope (as an unwinding panic also does) gives back the arena it
      started from: the same cursor, the same open scopes, exactly the same live blocks,
      and the same bytes in every one of them. */
  lemma ScopeRestores(o: Arena, body: seq<Op>)
    requires Inv(o)
    requires ScopeBody(Apply(o, OpenScope), body, |o.marks| + 1, |o.live|)
    ensures Allowed(Apply(o, OpenScope), body)
    ensures var inner := Run(Apply(o, OpenScope), body);
            && Inv(inner) && |inner.marks| > |o.marks|
            && (|inner.marks| == |o.marks| + 1 ==>
                  && Restored(o, Apply(inner, CloseScope))
                  && forall b :: b in o.live ==>
                       Apply(inner, CloseScope).bytes[b.off..End(b)] == o.bytes[b.off..End(b)])
  {
    var entered := Apply(o, OpenScope);
    InsideRun(o, entered, body);
    var inner := Run(entered, body);
    if |inner.marks| == |o.marks| + 1 {
      CloseRestores(o, inner);
      RestoredBlocks(o, Apply(inner, CloseScope));
    }
  }

  // ------------------------------------------------------------ the object

  /** The arena owns its mapping and drives `commit` itself; it never calls the mapping's
      own `allocate`. */
  class BumpArena {
    const backing: MmapBacked
    const capacity: nat
    var cursor: nat
    ghost var live: seq<Block>
    ghost var marks: seq<nat>

    ghost function Model(): Arena
      reads this, backing, backing.bytes
    {
      Arena(backing.Model(), cursor, backing.bytes[..], live, marks)
    }

    ghost predicate Valid()
      reads this, backing, backing.bytes
    {
      backing.Valid() && capacity == backing.len && Inv(Model())
    }

    constructor Over(backing: MmapBacked)
      requires backing.Valid() && backing.base + backing.len <= USIZE_MAX
      ensures Valid() && this.backing == backing
      ensures cursor == 0 && live == [] && marks == []
    {
      this.backing, capacity, cursor := backing, backing.len, 0;
      live, marks := [], [];
    }

    /** `BumpArena::new`: refused exactly when the range ends at the very top of the
        address space (an empty range cannot be mapped in the first place). */
    static method New(backing: MmapBacked) returns (r: BumpArena?)
      requires backing.Valid()
      ensures r == null <==> backing.base + backing.len > USIZE_MAX
      ensures r != null ==> r.Valid() && r.backing == backing && r.cursor == 0 && r.live == []
    {
      if backing.len == 0 || CheckedAdd(backing.base, backing.len) == None {
        return null;
      }
      r := new BumpArena.Over(backing);
    }

    /** `Allocator::allocate`. */
    method Allocate(l: Layout, grants: bool) returns (r: Option<Placement>)
      requires Valid() && ValidLayout(l)
      modifies this, backing
      ensures Valid()
      ensures Model() == Apply(old(Model()), Alloc(l, grants))
      ensures Outcome(Model(), r) == Allocation(old(Model()), l, grants)
      ensures r == None <==> AllocFails(old(Model()), l, grants)
      ensures r == None ==> Model() == old(Model())
      ensures 0 < l.align
      ensures r.Some? ==>
                && r.value.off == NextOffset(old(Model()), l.align) >= old(cursor)
                && cursor == r.value.end == r.value.off + l.size
                && live == old(live) + [Block(r.value.off, l.size, l.align)]
                && forall b: nat :: r.value.off <= b < r.value.end ==> b in backing.writable
    {
      hide BitAnd, RoundUp, Aligned, IsPow2, GrowBlock, KeepBelow, NextOffset, NeedsOs;
      ghost var before := Model();
      AllocateFailsExactly(before, l, grants);
      NextOffsetBounds(before, l);
      var p := Place(backing.base, cursor, capacity, l);
      if p == None {
        return None;
      }
      PlaceIsSound(backing.base, cursor, capacity, l);
      var ok := backing.Commit(p.value.off, l.size, grants);
      if !ok {
        return None;
      }
      cursor := p.value.end;
      live := live + [Block(p.value.off, l.size, l.align)];
      assert Model() == Apply(before, Alloc(l, grants));
      return p;
    }

    /** `alloc_uninit::<T>` for a type of the given size and alignment. A zero-sized type
        yields a dangling pointer, modelled as `None` with `ok` set. */
    method AllocUninit(size: nat, align: nat, grants: bool) returns (ok: bool, r: Option<Placement>)
      requires Valid() && (size == 0 || ValidLayout(Layout(size, align)))
      modifies this, backing
      ensures Valid()
      ensures Model() == Apply(old(Model()), Op.AllocUninit(size, align, grants))
      ensures size == 0 ==> ok && r == None && Model() == old(Model())
      ensures size > 0 ==> ok == r.Some? && 0 < align
      ensures size > 0 ==> (r == None <==> AllocFails(old(Model()), Layout(size, align), grants))
      ensures r == None ==> Model() == old(Model())
      ensures r.Some? ==>
                && r.value.off == NextOffset(old(Model()), align) >= old(cursor)
                && cursor == r.value.end == r.value.off + size
                && live == old(live) + [Block(r.value.off, size, align)]
                && forall b: nat :: r.value.off <= b < r.value.end ==> b in backing.writable
    {
      hide BitAnd, RoundUp, Aligned, IsPow2, GrowBlock, KeepBelow, Allocation, NextOffset, NeedsOs;
      if size == 0 {
        return true, None;
      }
      r := Allocate(Layout(size, align), grants);
      ok := r.Some?;
    }

    /** The fast path of `grow`: the block ends at the cursor and the larger one fits, so
        the cursor moves once the OS has granted the tail pages. */
    method GrowInPlace(off: nat, align: nat, newSize: nat, grants: bool, ghost i: nat) returns (ok: bool)
      requires Valid() && marks == [] && CanGrow(Model(), i, newSize)
      requires live[i].off == off && live[i].align == align && End(live[i]) == cursor
      requires off + newSize <= capacity
      modifies this, backing
      ensures Valid()
      ensures Model() == GrowBlock(old(Model()), i, newSize, grants).arena
      ensures GrowBlock(old(Model()), i, newSize, grants).block ==
              if ok then Some(Placement(off, off + newSize)) else None
    {
      hide BitAnd, RoundUp, Allocation;
      ghost var before := Model();
      GrowKeepsInv(before, i, newSize, grants);
      ok := backing.Commit(off, newSize, grants);
      if ok {
        cursor := off + newSize;
        live := live[i := Block(off, newSize, align)];
      }
      assert Model() == GrowBlock(before, i, newSize, grants).arena;
    }

    /** The slow path of `grow`: a fresh block, a copy, and the old block abandoned. */
    method Relocate(off: nat, oldSize: nat, align: nat, newSize: nat, grants: bool, ghost i: nat)
      returns (r: Option<Placement>)
      requires Valid() && CanGrow(Model(), i, newSize) && live[i] == Block(off, oldSize, align)
      modifies this, backing, backing.bytes
      ensures Valid()
      ensures var issued := Allocation(old(Model()), Layout(newSize, align), grants);
              Model() == Relocation(old(Model()), i, newSize, issued).arena && r == issued.block
    {
      hide BitAnd, RoundUp, Allocation, Apply, Splice;
      ghost var before := Model();
      ghost var issued := Allocation(before, Layout(newSize, align), grants);
      assert Sound(before, live[i]);
      RelocateKeepsInv(before, i, newSize, issued);
      r := Allocate(Layout(newSize, align), grants);
      if r.Some? {
        CopyNonoverlapping(backing.bytes, off, r.value.off, oldSize);
        live := live[..i] + live[i + 1..];
      }
      assert Model() == Relocation(before, i, newSize, issued).arena;
    }

    /** `Allocator::grow` of the live block at `off`, `oldSize` bytes long; `i` says which
        one it is. */
    method Grow(off: nat, oldSize: nat, align: nat, newSize: nat, grants: bool, ghost i: nat)
      returns (r: Option<Placement>)
      requires Valid() && marks == [] && CanGrow(Model(), i, newSize)
      requires live[i] == Block(off, oldSize, align)
      modifies this, backing, backing.bytes
      ensures Valid()
      ensures Model() == Apply(old(Model()), Op.Grow(i, newSize, grants))
      ensures r == GrowBlock(old(Model()), i, newSize, grants).block
      ensures r == None <==> GrowFails(old(Model()), i, newSize, grants)
    {
      hide BitAnd, RoundUp, Allocation, GrowFails;
      assert Sound(Model(), live[i]);
      GrowRefusal(Model(), i, newSize, grants);
      if CheckedAdd(off, oldSize) == Some(cursor) {
        var newEnd := CheckedAdd(off, newSize);
        if newEnd == None {
          return None;
        }
        if newEnd.value <= capacity {
          var ok := GrowInPlace(off, align, newSize, grants, i);
          return if ok then Some(Placement(off, newEnd.value)) else None;
        }
      }
      r := Relocate(off, oldSize, align, newSize, grants, i);
    }

    /** `reset`. */
    method Reset()
      requires Valid() && marks == []
      modifies this
      ensures Valid() && Model() == Apply(old(Model()), Op.Reset)
      ensures cursor == 0 && live == [] && backing.committed == old(backing.committed)
    {
      cursor := 0;
      live := [];
    }

    /** `rewind_to`. */
    method RewindTo(mark: nat)
      requires Valid() && marks == [] && mark <= cursor
      modifies this
      ensures Valid() && Model() == Apply(old(Model()), Op.RewindTo(mark))
      ensures cursor == mark && live <= old(live)
      ensures forall b :: b in live <==> b in old(live) && End(b) <= mark
    {
      hide Aligned, IsPow2, KeepBelow, RoundUp, BitAnd, Allocation, GrowBlock;
      RewindStepExact(Model(), Op.RewindTo(mark), mark);
      cursor := mark;
      live := KeepBelow(live, mark);
      RewindKeepsInv(old(Model()), mark, old(Model()).marks);
    }
  }

  /** The RAII guard: it remembers the cursor at creation and rewinds to it when dropped. */
  class Scope {
    const arena: BumpArena
    const mark: nat

    constructor (arena: BumpArena)
      requires arena.Valid()
      modifies arena
      ensures this.arena == arena && mark == old(arena.cursor)
      ensures arena.Valid() && arena.Model() == Apply(old(arena.Model()), OpenScope)
    {
      this.arena, mark := arena, arena.cursor;
      new;
      arena.marks := arena.marks + [arena.cursor];
    }

    /** `Drop for Scope`; the borrow checker makes this the innermost open scope. */
    method Drop()
      requires arena.Valid() && arena.marks != [] && arena.marks[|arena.marks| - 1] == mark
      modifies arena
      ensures arena.Valid() && arena.Model() == Apply(old(arena.Model()), CloseScope)
      ensures arena.cursor == mark && arena.live <= old(arena.live)
      ensures forall b :: b in arena.live <==> b in old(arena.live) && End(b) <= mark
    {
      hide Aligned, IsPow2, KeepBelow, RoundUp, BitAnd, Allocation, GrowBlock;
      ghost var before := arena.Model();
      RewindStepExact(before, CloseScope, mark);
      ghost var rest := arena.marks[..|arena.marks| - 1];
      RewindKeepsInv(before, mark, rest);
      arena.cursor := mark;
      arena.live := KeepBelow(arena.live, mark);
      arena.marks := rest;
    }
  }
}
