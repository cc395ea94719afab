/** `PoisonOnFree<Quarantine<I>>` over any inner allocator that keeps the trait contract:
    the bytes of the heap, the blocks clients hold, and the frees so far. */
module Poison {
  import opened Words
  import opened RawBytes
  import opened Quarantines

  /** A block as issued: `usable` is what the inner's `usable_size` answers for it. */
  datatype Block = Block(ptr: nat, size: nat, usable: Option<nat>)

  /** What `deallocate` scrubs: the usable size, or the requested one if none is reported. */
  function Extent(b: Block): nat {
    match b.usable
    case Some(n) => n
    case None => b.size
  }

  predicate Apart(b: Block, c: Block) { b.ptr + Extent(b) <= c.ptr || c.ptr + Extent(c) <= b.ptr }

  datatype Memory = Memory(bytes: seq<Byte>, pattern: Byte, epochs: nat, live: set<Block>, frees: seq<Block>)

  datatype Step =
    | Issue(b: Block)
    | Write(b: Block, pos: nat, value: Byte)
    | Scribble(at: nat, scribbled: Byte)
    | Release(b: Block)
    | Resize(b: Block, newSize: nat, issued: Option<Block>)

  /** The ring of the quarantine. */
  function Slots(m: Memory): seq<Option<Block>>
    requires m.epochs > 0
  {
    After(m.epochs, m.frees).slots
  }

  /** A block the inner still counts as allocated: with a client, or waiting. */
  ghost predicate Taken(m: Memory, b: Block)
    requires m.epochs > 0
  {
    b in m.live || Some(b) in Slots(m)
  }

  ghost predicate InHeap(m: Memory, b: Block) {
    0 < b.size <= Extent(b) && b.ptr + Extent(b) <= |m.bytes|
  }

  /** The trait contract for a fresh block: valid memory that overlaps no block the inner
      has not been given back. */
  ghost predicate MayIssue(m: Memory, b: Block)
    requires m.epochs > 0
  {
    InHeap(m, b) && forall c :: Taken(m, c) ==> Apart(b, c)
  }

  /** Clients write only blocks they hold; the inner writes only what is not taken. A
      resize is the trait's default: the inner answers the allocation. */
  ghost predicate Enabled(m: Memory, step: Step)
    requires m.epochs > 0
  {
    match step
    case Issue(b) => MayIssue(m, b)
    case Write(b, pos, _) => b in m.live && pos < Extent(b) && b.ptr + pos < |m.bytes|
    case Scribble(at, _) =>
      at < |m.bytes| && forall c :: Taken(m, c) ==> !(c.ptr <= at < c.ptr + Extent(c))
    case Release(b) => b in m.live && InHeap(m, b)
    case Resize(b, newSize, issued) =>
      b in m.live && InHeap(m, b) && (issued.Some? ==> MayIssue(m, issued.value) && issued.value.size == newSize)
  }

  ghost function Poisoned(m: Memory, b: Block): Memory
    requires InHeap(m, b)
  {
    m.(bytes := Splice(m.bytes, b.ptr, Repeat(m.pattern, Extent(b))))
  }

  /** `deallocate`: poison the extent, then hand the block to the quarantine. */
  ghost function Released(m: Memory, b: Block): Memory
    requires InHeap(m, b)
  {
    Poisoned(m, b).(live := m.live - {b}, frees := m.frees + [b])
  }

  ghost function Issued(m: Memory, b: Block): Memory { m.(live := m.live + {b}) }

  ghost function Copied(m: Memory, b: Block, c: Block): Memory
    requires InHeap(m, b) && InHeap(m, c)
  {
    m.(bytes := Splice(m.bytes, c.ptr, m.bytes[b.ptr..b.ptr + Min(b.size, c.size)]))
  }

  /** The default `grow` and `shrink`: allocate, copy the shorter of the two sizes, and
      deallocate the old block through the wrapper. */
  ghost function Resized(m: Memory, b: Block, c: Block): Memory
    requires InHeap(m, b) && InHeap(m, c)
  {
    Released(Copied(Issued(m, c), b, c), b)
  }

  ghost function Next(m: Memory, step: Step): Memory
    requires m.epochs > 0 && Enabled(m, step)
  {
    match step
    case Issue(b) => Issued(m, b)
    case Write(b, pos, value) => m.(bytes := m.bytes[b.ptr + pos := value])
    case Scribble(at, value) => m.(bytes := m.bytes[at := value])
    case Release(b) => Released(m, b)
    case Resize(b, _, issued) => if issued == None then m else Resized(m, b, issued.value)
  }

  // ------------------------------------------------------------ invariant

  ghost predicate AllPoison(m: Memory, b: Block) {
    InHeap(m, b) && forall k :: b.ptr <= k < b.ptr + Extent(b) ==> m.bytes[k] == m.pattern
  }

  /** Taken blocks are valid memory and pairwise apart; the waiting ones are poison from
      end to end. */
  ghost predicate Inv(m: Memory) {
    && m.epochs > 0
    && (forall b :: b in m.live ==> InHeap(m, b))
    && (forall j :: 0 <= j < m.epochs && Slots(m)[j].Some? ==> AllPoison(m, Slots(m)[j].value))
    && (forall b, c :: b in m.live && c in m.live && b != c ==> Apart(b, c))
    && (forall b, j :: b in m.live && 0 <= j < m.epochs && Slots(m)[j].Some? ==> Apart(b, Slots(m)[j].value))
    && (forall i, j :: 0 <= i < j < m.epochs && Slots(m)[i].Some? && Slots(m)[j].Some? ==>
          Apart(Slots(m)[i].value, Slots(m)[j].value))
  }

  lemma FreedSlots(m: Memory, b: Block)
    requires m.epochs > 0
    ensures var n := |m.frees|;
            After(m.epochs, m.frees + [b]).slots == Slots(m)[SlotOf(m.epochs, n) := Some(b)]
  {
    hide SlotOf;
    FreedAt(m.epochs, m.frees + [b]);
    assert (m.frees + [b])[..|m.frees|] == m.frees;
  }

  ghost predicate Same(m: Memory, r: Memory, b: Block)
    requires |r.bytes| == |m.bytes|
  {
    forall k :: b.ptr <= k < b.ptr + Extent(b) && k < |m.bytes| ==> r.bytes[k] == m.bytes[k]
  }

  /** A change of bytes that leaves every waiting block's bytes alone. */
  lemma BytesKeepInv(m: Memory, r: Memory)
    requires Inv(m) && r == m.(bytes := r.bytes) && |r.bytes| == |m.bytes|
    requires forall j :: 0 <= j < m.epochs && Slots(m)[j].Some? ==> Same(m, r, Slots(m)[j].value)
    ensures Inv(r)
  {
    hide After;
    assert Slots(r) == Slots(m);
    forall j | 0 <= j < m.epochs && Slots(r)[j].Some?
      ensures AllPoison(r, Slots(r)[j].value)
    {
      assert AllPoison(m, Slots(m)[j].value);
    }
  }

  lemma IssueKeepsInv(m: Memory, b: Block)
    requires Inv(m) && MayIssue(m, b)
    ensures Inv(Issued(m, b)) && b !in m.live
  {
    hide After;
    assert Slots(Issued(m, b)) == Slots(m);
    forall j | 0 <= j < m.epochs && Slots(m)[j].Some?
      ensures Apart(b, Slots(m)[j].value)
      ensures AllPoison(Issued(m, b), Slots(m)[j].value)
    {
      assert Taken(m, Slots(m)[j].value);
    }
    forall c | c in m.live
      ensures Apart(b, c)
    {
      assert Taken(m, c);
    }
    assert !Apart(b, b);
  }

  /** Poisoning one client block touches no waiting block. */
  lemma PoisonKeepsInv(m: Memory, b: Block)
    requires Inv(m) && b in m.live
    ensures Inv(Poisoned(m, b)) && AllPoison(Poisoned(m, b), b)
  {
    hide After;
    forall j | 0 <= j < m.epochs && Slots(m)[j].Some?
      ensures Same(m, Poisoned(m, b), Slots(m)[j].value)
    {
      assert Apart(b, Slots(m)[j].value);
    }
    BytesKeepInv(m, Poisoned(m, b));
  }

  lemma QuarantineKeepsInv(m: Memory, b: Block)
    requires Inv(m) && b in m.live && AllPoison(m, b)
    ensures Inv(m.(live := m.live - {b}, frees := m.frees + [b]))
  {
    hide After, SlotOf;
    var r := m.(live := m.live - {b}, frees := m.frees + [b]);
    FreedSlots(m, b);
    forall j | 0 <= j < m.epochs && Slots(r)[j].Some?
      ensures AllPoison(r, Slots(r)[j].value)
    {
      if j != SlotOf(m.epochs, |m.frees|) { assert AllPoison(m, Slots(m)[j].value); }
    }
    forall i, j | 0 <= i < j < m.epochs && Slots(r)[i].Some? && Slots(r)[j].Some?
      ensures Apart(Slots(r)[i].value, Slots(r)[j].value)
    {
      if i == SlotOf(m.epochs, |m.frees|) {
        assert Apart(b, Slots(m)[j].value);
      } else if j == SlotOf(m.epochs, |m.frees|) {
        assert Apart(b, Slots(m)[i].value);
      } else {
        assert Apart(Slots(m)[i].value, Slots(m)[j].value);
      }
    }
  }

  lemma ReleaseKeepsInv(m: Memory, b: Block)
    requires Inv(m) && b in m.live
    ensures Inv(Released(m, b)) && AllPoison(Released(m, b), b)
  {
    hide After, Inv;
    BlockInHeap(m, b);
    PoisonKeepsInv(m, b);
    QuarantineKeepsInv(Poisoned(m, b), b);
  }

  lemma WriteKeepsInv(m: Memory, b: Block, at: nat, value: Byte)
    requires Inv(m) && at < |m.bytes| && b.ptr <= at < b.ptr + Extent(b)
    requires forall j :: 0 <= j < m.epochs && Slots(m)[j].Some? ==> Apart(b, Slots(m)[j].value)
    ensures Inv(m.(bytes := m.bytes[at := value]))
  {
    hide After;
    BytesKeepInv(m, m.(bytes := m.bytes[at := value]));
  }

  lemma ScribbleKeepsInv(m: Memory, at: nat, value: Byte)
    requires Inv(m) && Enabled(m, Scribble(at, value))
    ensures Inv(m.(bytes := m.bytes[at := value]))
  {
    hide After;
    var r := m.(bytes := m.bytes[at := value]);
    forall j | 0 <= j < m.epochs && Slots(m)[j].Some?
      ensures Same(m, r, Slots(m)[j].value)
    {
      assert Taken(m, Slots(m)[j].value);
    }
    BytesKeepInv(m, r);
  }

  /** The bytes both blocks have room for are the same. */
  ghost predicate SamePrefix(m: Memory, b: Block, r: Memory, c: Block) {
    var n := Min(b.size, c.size);
    n >= 0 && b.ptr + n <= |m.bytes| && c.ptr + n <= |r.bytes| && r.bytes[c.ptr..c.ptr + n] == m.bytes[b.ptr..b.ptr + n]
  }

  lemma CopyKeepsInv(m: Memory, b: Block, c: Block)
    requires Inv(m) && b in m.live && c in m.live && b != c
    ensures Inv(Copied(m, b, c))
    ensures SamePrefix(m, b, Copied(m, b, c), c)
    ensures forall d :: d in m.live && d != c ==> Same(m, Copied(m, b, c), d)
  {
    hide After;
    forall j | 0 <= j < m.epochs && Slots(m)[j].Some?
      ensures Same(m, Copied(m, b, c), Slots(m)[j].value)
    {
      assert Apart(c, Slots(m)[j].value);
    }
    forall d | d in m.live && d != c
      ensures Same(m, Copied(m, b, c), d)
    {
      assert Apart(c, d);
    }
    BytesKeepInv(m, Copied(m, b, c));
  }

  /** Poisoning a block leaves every other client block's bytes alone. */
  lemma ReleaseSparesOthers(m: Memory, b: Block, d: Block)
    requires Inv(m) && b in m.live && d in m.live && d != b
    ensures Same(m, Released(m, b), d)
  {
    hide After;
    assert Apart(b, d);
  }

  /** The default `grow` and `shrink` keep the copied prefix, leave every other client
      block untouched, and the whole extent of the block moved from is poison. */
  lemma ResizeExact(m: Memory, b: Block, c: Block)
    requires Inv(m) && b in m.live && MayIssue(m, c)
    ensures var r := Resized(m, b, c);
            && Inv(r) && r.live == m.live - {b} + {c} && r.frees == m.frees + [b] && |r.bytes| == |m.bytes|
            && SamePrefix(m, b, r, c)
            && AllPoison(r, b)
            && forall d :: d in m.live && d != b ==> Same(m, r, d)
  {
    hide After, AllPoison;
    IssueKeepsInv(m, c);
    var i := Issued(m, c);
    CopyKeepsInv(i, b, c);
    var k := Copied(i, b, c);
    ReleaseKeepsInv(k, b);
    BlockInHeap(m, b);
    ReleaseSparesOthers(k, b, c);
    forall d | d in m.live && d != b
      ensures Same(m, Released(k, b), d)
    {
      assert Same(i, k, d);
      ReleaseSparesOthers(k, b, d);
    }
  }

  lemma NextKeepsInv(m: Memory, step: Step)
    requires Inv(m) && Enabled(m, step)
    ensures Inv(Next(m, step))
  {
    hide After;
    match step
    case Issue(b) => IssueKeepsInv(m, b);
    case Write(b, pos, value) => WriteKeepsInv(m, b, b.ptr + pos, value);
    case Scribble(at, value) => ScribbleKeepsInv(m, at, value);
    case Release(b) => ReleaseKeepsInv(m, b);
    case Resize(b, _, issued) =>
      if issued.Some? { ResizeExact(m, b, issued.value); }
  }

  /** `deallocate`, as a step: the block goes from the client to the quarantine, its whole
      usable extent is poison, and no byte outside it changes. */
  lemma ReleaseStepExact(m: Memory, b: Block)
    requires Inv(m) && Enabled(m, Release(b))
    ensures var r := Next(m, Release(b));
            && Inv(r) && r.live == m.live - {b} && r.frees == m.frees + [b] && |r.bytes| == |m.bytes|
            && forall k :: 0 <= k < |m.bytes| ==>
                 r.bytes[k] == if b.ptr <= k < b.ptr + (if b.usable.Some? then b.usable.value else b.size)
                               then m.pattern else m.bytes[k]
  {
    hide After, Inv;
    ReleaseKeepsInv(m, b);
  }

  /** The default `grow` and `shrink`, as a step: on a refused allocation nothing changes.
      Otherwise the new block is live and starts with the bytes both have room for, the old
      one is in the quarantine and poison from end to end, and every other block that a
      client holds has its bytes. */
  lemma ResizeStepExact(m: Memory, b: Block, newSize: nat, issued: Option<Block>)
    requires Inv(m) && Enabled(m, Resize(b, newSize, issued))
    ensures var r := Next(m, Resize(b, newSize, issued));
            && Inv(r) && |r.bytes| == |m.bytes|
            && (issued == None ==> r == m)
            && (issued.Some? ==>
                  && r.live == m.live - {b} + {issued.value} && r.frees == m.frees + [b]
                  && SamePrefix(m, b, r, issued.value) && AllPoison(r, b)
                  && forall d :: d in m.live && d != b ==> Same(m, r, d))
  {
    hide After, Inv, Resized, SamePrefix, AllPoison;
    if issued.Some? { ResizeExact(m, b, issued.value); }
  }

  /** The other steps: a block is issued, or one byte changes. */
  lemma OtherStepExact(m: Memory, step: Step)
    requires Inv(m) && Enabled(m, step) && (step.Issue? || step.Write? || step.Scribble?)
    ensures var r := Next(m, step);
            && r.frees == m.frees && |r.bytes| == |m.bytes|
            && r.live == (if step.Issue? then m.live + {step.b} else m.live)
            && forall k :: 0 <= k < |m.bytes| ==>
                 r.bytes[k] == if step.Write? && k == step.b.ptr + step.pos then step.value
                               else if step.Scribble? && k == step.at then step.scribbled else m.bytes[k]
  {
    hide After;
  }

  /** The block a free evicts leaves the wrapper as poison from end to end. */
  lemma EvictedIsPoison(m: Memory, b: Block)
    requires Inv(m) && b in m.live
    ensures var x := Evicted(m.epochs, Released(m, b).frees);
            x.Some? ==> AllPoison(Released(m, b), x.value)
  {
    hide After, Evicted, SlotOf;
    FreedAt(m.epochs, m.frees + [b]);
    assert (m.frees + [b])[..|m.frees|] == m.frees;
    var x := Evicted(m.epochs, m.frees + [b]);
    if x.Some? {
      assert x == Slots(m)[SlotOf(m.epochs, |m.frees|)];
      assert AllPoison(m, x.value) && Apart(b, x.value);
    }
  }

  // ------------------------------------------------------------ whole runs

  ghost predicate Init(m: Memory) { 0 < m.epochs && m.live == {} && m.frees == [] }

  ghost predicate IsRun(states: seq<Memory>, steps: seq<Step>) {
    && |states| == |steps| + 1 && Init(states[0])
    && forall i :: 0 <= i < |steps| ==>
         states[i].epochs > 0 && Enabled(states[i], steps[i]) && states[i + 1] == Next(states[i], steps[i])
  }

  lemma {:induction false} RunKeepsInv(states: seq<Memory>, steps: seq<Step>, n: nat)
    requires IsRun(states, steps) && n <= |steps|
    ensures Inv(states[n])
  {
    hide Next, Inv, Enabled;
    if n == 0 {
      InitInv(states[0]);
    } else {
      RunKeepsInv(states, steps, n - 1);
      NextKeepsInv(states[n - 1], steps[n - 1]);
    }
  }

  lemma InitInv(m: Memory)
    requires Init(m)
    ensures Inv(m)
  {
    forall j | 0 <= j < m.epochs
      ensures Slots(m)[j] == None
    {
      SlotEmpty(m.epochs, m.frees, j);
    }
  }

  lemma RecentWaits(m: Memory, i: nat)
    requires m.epochs > 0 && |m.frees| - m.epochs <= i < |m.frees| && Steady(m.epochs, |m.frees|)
    ensures SlotOf(m.epochs, i) < m.epochs && Slots(m)[SlotOf(m.epochs, i)] == Some(m.frees[i])
  {
    hide SlotOf, After;
    forall k | i < k < |m.frees|
      ensures SlotOf(m.epochs, k) != SlotOf(m.epochs, i)
    {
      SteadySlot(m.epochs, |m.frees|, k);
      SteadySlot(m.epochs, |m.frees|, i);
      SameResidue(m.epochs, i, k);
    }
    SlotHolds(m.epochs, m.frees, i);
  }

  /** Poison persists through quarantine. In every run of clients that write only what
      they hold, over any inner that keeps the trait contract, at every moment: whatever
      waits in the ring is poison over its whole usable extent; and as long as the free
      counter is steady, that is every one of the last `epochs` blocks freed. */
  lemma PoisonPersists(states: seq<Memory>, steps: seq<Step>, n: nat)
    requires IsRun(states, steps) && n <= |steps|
    ensures var m := states[n];
            && m.epochs > 0
            && (forall b :: Some(b) in Slots(m) ==> AllPoison(m, b))
            && (Steady(m.epochs, |m.frees|) ==>
                  forall i :: 0 <= i < |m.frees| && |m.frees| - m.epochs <= i ==> AllPoison(m, m.frees[i]))
  {
    hide Next, Enabled, After, AllPoison, Steady, SlotOf;
    RunKeepsInv(states, steps, n);
    var m := states[n];
    if Steady(m.epochs, |m.frees|) {
      forall i | 0 <= i < |m.frees| && |m.frees| - m.epochs <= i
        ensures AllPoison(m, m.frees[i])
      {
        RecentWaits(m, i);
      }
    }
  }

  // ------------------------------------------------------------ the object

  class PoisonOnFree {
    const bytes: array<Byte>
    const pattern: Byte
    const quarantine: Quarantine<Block>
    ghost var live: set<Block>

    ghost function Model(): Memory
      reads this, bytes, quarantine
    {
      Memory(bytes[..], pattern, quarantine.epochs, live, quarantine.freed)
    }

    ghost predicate Valid()
      reads this, bytes, quarantine, quarantine.ring
    {
      quarantine.Valid() && Inv(Model())
    }

    constructor (bytes: array<Byte>, pattern: Byte, quarantine: Quarantine<Block>)
      requires quarantine.Valid() && quarantine.freed == []
      ensures Valid() && Model() == Memory(bytes[..], pattern, quarantine.epochs, {}, [])
      ensures this.bytes == bytes && this.quarantine == quarantine
    {
      this.bytes, this.pattern, this.quarantine, live := bytes, pattern, quarantine, {};
      InitInv(Memory(bytes[..], pattern, quarantine.epochs, {}, []));
    }

    /** `issued` is the inner's answer. */
    method Allocate(issued: Option<Block>) returns (r: Option<Block>)
      requires Valid() && (issued.Some? ==> MayIssue(Model(), issued.value))
      modifies this
      ensures Valid() && r == issued
      ensures Model() == if issued.Some? then Next(old(Model()), Issue(issued.value)) else old(Model())
    {
      if issued.Some? {
        IssueKeepsInv(Model(), issued.value);
        live := live + {issued.value};
      }
      return issued;
    }

    /** `toInner` is the block the quarantine hands to the inner, if any. */
    method Deallocate(b: Block) returns (toInner: Option<Block>)
      requires Valid() && b in live
      modifies this, bytes, quarantine, quarantine.ring
      ensures Valid() && Model() == Next(old(Model()), Release(b))
      ensures live == old(live) - {b} && quarantine.freed == old(quarantine.freed) + [b]
      ensures forall k :: 0 <= k < bytes.Length ==>
                bytes[k] == if b.ptr <= k < b.ptr + (if b.usable.Some? then b.usable.value else b.size)
                            then pattern else old(bytes[k])
      ensures AllPoison(Model(), b)
      ensures toInner == Evicted(quarantine.epochs, quarantine.freed)
      ensures quarantine.forwarded == old(quarantine.forwarded) + AsSeq(toInner)
      ensures toInner.Some? ==> AllPoison(Model(), toInner.value)
    {
      hide After, AllPoison, Inv, Contents, AsSeq, Forwarded, QueueForwarded, Steady, Evicted;
      ghost var before := Model();
      BlockInHeap(before, b);
      ReleaseKeepsInv(before, b);
      EvictedIsPoison(before, b);
      ReleaseStepExact(before, b);
      var scrubLen := if b.usable.Some? then b.usable.value else b.size;
      WriteBytes(bytes, b.ptr, pattern, scrubLen);
      toInner := quarantine.Deallocate(b);
      live := live - {b};
      assert Model() == Released(before, b);
    }

    /** The trait's default `grow` and `shrink`; on a failed allocation the block is
        untouched and still live. */
    method Resize(b: Block, newSize: nat, issued: Option<Block>) returns (r: Option<Block>, toInner: Option<Block>)
      requires Valid() && b in live
      requires issued.Some? ==> MayIssue(Model(), issued.value) && issued.value.size == newSize
      modifies this, bytes, quarantine, quarantine.ring
      ensures Valid() && Model() == Next(old(Model()), Step.Resize(b, newSize, issued)) && r == issued
      ensures toInner == if r.Some? then Evicted(quarantine.epochs, quarantine.freed) else None
      ensures quarantine.forwarded == old(quarantine.forwarded) + AsSeq(toInner)
      ensures r == None ==> live == old(live) && bytes[..] == old(bytes[..])
      ensures r.Some? ==>
                && live == old(live) - {b} + {r.value} && quarantine.freed == old(quarantine.freed) + [b]
                && SamePrefix(old(Model()), b, Model(), r.value)
                && forall d :: d in old(live) && d != b ==> Same(old(Model()), Model(), d)
      ensures r.Some? ==> AllPoison(Model(), b)
      ensures toInner.Some? ==> AllPoison(Model(), toInner.value)
    {
      hide After, AllPoison, Inv, Contents, Forwarded, QueueForwarded, Steady, Apart, Splice, Evicted;
      ghost var before := Model();
      BlockInHeap(before, b);
      ResizeStepExact(before, b, newSize, issued);
      r := Allocate(issued);
      if r.Some? {
        ghost var mid := Model();
        IssueApart(before, b, r.value);
        CopyKeepsInv(mid, b, r.value);
        CopyNonoverlapping(bytes, b.ptr, r.value.ptr, Min(b.size, newSize));
        assert Model() == Copied(mid, b, r.value);
        toInner := Deallocate(b);
      } else {
        toInner := None;
      }
    }
  }

  lemma IssueApart(m: Memory, b: Block, c: Block)
    requires Inv(m) && b in m.live && MayIssue(m, c)
    ensures InHeap(m, b) && b != c
    ensures var n := Min(b.size, c.size); b.ptr + n <= c.ptr || c.ptr + n <= b.ptr
  {
    assert Taken(m, b);
  }

  lemma BlockInHeap(m: Memory, b: Block)
    requires Inv(m) && b in m.live
    ensures InHeap(m, b)
  {
  }
}
