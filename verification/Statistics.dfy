/** `Statistics`: any number of threads allocating and freeing through the counting
    wrapper. Each atomic access to a counter is one step; the inner allocator's answers
    are nondeterministic. Counters are 64-bit words that wrap. */
module Statistics {
  import opened Words
  import opened Sums

  type Tid = nat
  const M := USIZE_MAX + 1

  /** Who has a block the inner allocator issued: the client, a thread inside a call, or
      nobody once the inner allocator has it back. */
  datatype Holder = Client | InCall(t: Tid) | Gone

  /** How far the accounting of a block has come: `noted` between the two `total_*`
      updates, `counted` while its bytes are in `bytes_allocated`. */
  datatype Block = Block(size: nat, holder: Holder, noted: bool, counted: bool)

  /** What a thread does once the corruption mirror has been polled. */
  datatype Cont = AfterOk(id: nat) | AfterErr | ThenFree(id: nat)

  datatype Pc =
    | Idle
    | Poll(k: Cont)
    | MirrorLoad(k: Cont, v: usize)
    | MirrorMax(k: Cont, v: usize)
    | NoteAlloc(id: nat)
    | AddBytes(id: nat)
    | PeakLoad(id: nat, new_: nat)
    | PeakMax(id: nat, new_: nat)
    | NoteFailure
    | SubBytes(id: nat)
    | Free(id: nat)

  datatype Counters = Counters(totalAllocations: usize, totalDeallocations: usize, bytesAllocated: usize,
                               bytesPeak: usize, failures: usize, corruptionEvents: usize)

  /** `maxBytes` and `maxPolled` are history: the largest value `bytes_allocated` has ever
      held and the largest inner event count a mirror update has ever read. */
  datatype State = State(c: Counters, blocks: seq<Block>, threads: map<Tid, Pc>,
                         innerEvents: nat, maxBytes: nat, maxPolled: nat)

  datatype Step =
    | InnerOk(t: Tid, size: nat)
    | InnerErr(t: Tid)
    | StartFree(t: Tid, id: nat)
    | InnerEvent
    | Advance(t: Tid)

  function PcOf(s: State, t: Tid): Pc {
    if t in s.threads then s.threads[t] else Idle
  }

  function FetchAdd(x: usize, n: nat): usize { (x + n) % M }

  function FetchSub(x: usize, n: nat): usize { (x - n) % M }

  function CountedBytes(b: Block): nat { if b.counted then b.size else 0 }

  function LiveBytes(b: Block): nat { if b.holder.Gone? then 0 else b.size }

  function Noted(b: Block): nat { if b.noted then 1 else 0 }

  function ClientHeld(b: Block): nat { if b.holder.Client? then 1 else 0 }

  ghost predicate Init(s: State) {
    && s.c == Counters(0, 0, 0, 0, 0, 0)
    && s.blocks == [] && s.threads == map[]
    && s.innerEvents == 0 && s.maxBytes == 0 && s.maxPolled == 0
  }

  /** What callers and the inner allocator may do: the inner issues non-empty blocks that
      fit one address space together, and a client frees only a block it holds. */
  predicate Enabled(s: State, step: Step) {
    match step
    case InnerOk(t, size) => PcOf(s, t).Idle? && 0 < size && Sum(s.blocks, LiveBytes) + size <= USIZE_MAX
    case InnerErr(t) => PcOf(s, t).Idle?
    case StartFree(t, id) => PcOf(s, t).Idle? && id < |s.blocks| && s.blocks[id].holder.Client?
    case InnerEvent => true
    case Advance(t) =>
      && !PcOf(s, t).Idle?
      && (Held(PcOf(s, t)).Some? ==> Held(PcOf(s, t)).value < |s.blocks|)
  }

  function Held(pc: Pc): Option<nat> {
    match pc
    case Poll(k) => HeldBy(k)
    case MirrorLoad(k, _) => HeldBy(k)
    case MirrorMax(k, _) => HeldBy(k)
    case NoteAlloc(id) => Some(id)
    case AddBytes(id) => Some(id)
    case PeakLoad(id, _) => Some(id)
    case PeakMax(id, _) => Some(id)
    case SubBytes(id) => Some(id)
    case Free(id) => Some(id)
    case Idle => None
    case NoteFailure => None
  }

  function HeldBy(k: Cont): Option<nat> {
    match k
    case AfterOk(id) => Some(id)
    case ThenFree(id) => Some(id)
    case AfterErr => None
  }

  function Resume(k: Cont): Pc {
    match k
    case AfterOk(id) => NoteAlloc(id)
    case ThenFree(id) => Free(id)
    case AfterErr => NoteFailure
  }

  function Goto(s: State, t: Tid, pc: Pc): State {
    s.(threads := s.threads[t := pc])
  }

  function SetBlock(s: State, id: nat, b: Block): State
    requires id < |s.blocks|
  {
    s.(blocks := s.blocks[id := b])
  }

  function Next(s: State, step: Step): State
    requires Enabled(s, step)
  {
    match step
    case InnerOk(t, size) =>
      Goto(s.(blocks := s.blocks + [Block(size, InCall(t), false, false)]), t, Poll(AfterOk(|s.blocks|)))
    case InnerErr(t) => Goto(s, t, Poll(AfterErr))
    case StartFree(t, id) =>
      var b := s.blocks[id].(holder := InCall(t), noted := false);
      Goto(SetBlock(s, id, b), t, SubBytes(id))
        .(c := s.c.(totalDeallocations := FetchAdd(s.c.totalDeallocations, 1)))
    case InnerEvent => s.(innerEvents := s.innerEvents + 1)
    case Advance(t) => NextOf(s, t, PcOf(s, t))
  }

  /** The next atomic step of a thread inside a call. */
  function NextOf(s: State, t: Tid, pc: Pc): State
    requires !pc.Idle? && (Held(pc).Some? ==> Held(pc).value < |s.blocks|)
  {
    match pc
    case Poll(k) =>
      var v := Min(s.innerEvents, USIZE_MAX);
      Goto(s, t, MirrorLoad(k, v)).(maxPolled := Max(s.maxPolled, v))
    case MirrorLoad(k, v) =>
      Goto(s, t, if v > s.c.corruptionEvents then MirrorMax(k, v) else Resume(k))
    case MirrorMax(k, v) =>
      Goto(s, t, Resume(k)).(c := s.c.(corruptionEvents := Max(s.c.corruptionEvents, v)))
    case NoteAlloc(id) =>
      Goto(SetBlock(s, id, s.blocks[id].(noted := true)), t, AddBytes(id))
        .(c := s.c.(totalAllocations := FetchAdd(s.c.totalAllocations, 1)))
    case AddBytes(id) =>
      var size := s.blocks[id].size;
      var after := FetchAdd(s.c.bytesAllocated, size);
      var local := Min(s.c.bytesAllocated + size, USIZE_MAX);
      Goto(SetBlock(s, id, s.blocks[id].(counted := true)), t, PeakLoad(id, local))
        .(c := s.c.(bytesAllocated := after), maxBytes := Max(s.maxBytes, after))
    case PeakLoad(id, new_) =>
      if new_ > s.c.bytesPeak then Goto(s, t, PeakMax(id, new_)) else Return(s, t, id)
    case PeakMax(id, new_) =>
      Return(s.(c := s.c.(bytesPeak := Min(Max(s.c.bytesPeak, new_), USIZE_MAX))), t, id)
    case NoteFailure => Goto(s, t, Idle).(c := s.c.(failures := FetchAdd(s.c.failures, 1)))
    case SubBytes(id) =>
      Goto(SetBlock(s, id, s.blocks[id].(counted := false)), t, Poll(ThenFree(id)))
        .(c := s.c.(bytesAllocated := FetchSub(s.c.bytesAllocated, s.blocks[id].size)))
    case Free(id) => Goto(SetBlock(s, id, s.blocks[id].(holder := Gone)), t, Idle)
  }

  function Return(s: State, t: Tid, id: nat): State
    requires id < |s.blocks|
  {
    Goto(SetBlock(s, id, s.blocks[id].(holder := Client)), t, Idle)
  }

  // ------------------------------------------------------------ invariant

  /** How far the accounting of the block a thread holds is at each program point. */
  predicate Stage(pc: Pc, b: Block) {
    match pc
    case AddBytes(_) => b.noted && !b.counted
    case PeakLoad(_, _) => b.noted && b.counted
    case PeakMax(_, _) => b.noted && b.counted
    case SubBytes(_) => !b.noted && b.counted
    case _ => !b.noted && !b.counted
  }

  ghost predicate HoldsWell(s: State, t: Tid) {
    Held(PcOf(s, t)).Some? ==>
      var id := Held(PcOf(s, t)).value;
      id < |s.blocks| && s.blocks[id].holder == InCall(t) && Stage(PcOf(s, t), s.blocks[id])
  }

  ghost predicate BlockWell(s: State, id: nat)
    requires id < |s.blocks|
  {
    match s.blocks[id].holder
    case Client => s.blocks[id].noted && s.blocks[id].counted
    case InCall(t) => Held(PcOf(s, t)) == Some(id)
    case Gone => !s.blocks[id].noted && !s.blocks[id].counted
  }

  /** Each block is with exactly one thread, or the client, or back in the inner. */
  ghost predicate Ownership(s: State) {
    && (forall t :: t in s.threads ==> HoldsWell(s, t))
    && (forall id :: 0 <= id < |s.blocks| ==> BlockWell(s, id))
  }

  function PeakPending(pc: Pc): nat {
    if pc.PeakLoad? || pc.PeakMax? then pc.new_ else 0
  }

  function MirrorPending(pc: Pc): nat {
    if pc.MirrorLoad? || pc.MirrorMax? then pc.v else 0
  }

  /** A maximum is recorded, or some thread in flight is still about to record it. */
  ghost predicate PeakTracked(s: State) {
    && s.c.bytesPeak <= s.maxBytes
    && (forall t :: t in s.threads ==> PeakPending(PcOf(s, t)) <= s.maxBytes)
    && (s.c.bytesPeak == s.maxBytes ||
        exists t :: t in s.threads && PeakPending(PcOf(s, t)) == s.maxBytes)
  }

  ghost predicate MirrorTracked(s: State) {
    && s.c.corruptionEvents <= s.maxPolled <= s.innerEvents
    && (forall t :: t in s.threads ==> MirrorPending(PcOf(s, t)) <= s.maxPolled)
    && (s.c.corruptionEvents == s.maxPolled ||
        exists t :: t in s.threads && MirrorPending(PcOf(s, t)) == s.maxPolled)
  }

  ghost predicate Accounting(s: State) {
    && s.c.bytesAllocated == Sum(s.blocks, CountedBytes) <= s.maxBytes <= USIZE_MAX
    && Sum(s.blocks, LiveBytes) <= USIZE_MAX
    && s.c.totalAllocations == (s.c.totalDeallocations + Sum(s.blocks, Noted)) % M
  }

  ghost predicate Inv(s: State) {
    Ownership(s) && Accounting(s) && PeakTracked(s) && MirrorTracked(s)
  }

  // ------------------------------------------------------------ every step

  /** A step of thread `t` that touches no block, or only a block that is with `t` or
      with the client, cannot disturb what any other thread or block has. */
  lemma OwnershipFrame(s: State, r: State, t: Tid, id: nat)
    requires Ownership(s) && id < |s.blocks| && |r.blocks| == |s.blocks|
    requires r.threads == s.threads[t := PcOf(r, t)] && r.blocks == s.blocks[id := r.blocks[id]]
    requires s.blocks[id].holder == InCall(t) || s.blocks[id].holder == Client
    requires Held(PcOf(s, t)).Some? ==> Held(PcOf(s, t)) == Some(id)
    requires HoldsWell(r, t) && BlockWell(r, id)
    ensures Ownership(r)
  {
    forall u | u in r.threads
      ensures HoldsWell(r, u)
    {
      if u != t { assert HoldsWell(s, u); }
    }
    forall k | 0 <= k < |r.blocks|
      ensures BlockWell(r, k)
    {
      if k != id { assert BlockWell(s, k); }
    }
  }

  lemma OwnershipNoBlock(s: State, r: State, t: Tid)
    requires Ownership(s) && r.blocks == s.blocks && r.threads == s.threads[t := PcOf(r, t)]
    requires Held(PcOf(s, t)) == None && Held(PcOf(r, t)) == None
    ensures Ownership(r)
  {
    forall u | u in r.threads
      ensures HoldsWell(r, u)
    {
      if u != t { assert HoldsWell(s, u); }
    }
    forall k | 0 <= k < |r.blocks|
      ensures BlockWell(r, k)
    {
      assert BlockWell(s, k);
    }
  }

  lemma OwnershipIssue(s: State, t: Tid, size: nat)
    requires Ownership(s) && Enabled(s, InnerOk(t, size))
    ensures Ownership(Next(s, InnerOk(t, size)))
  {
    var r := Next(s, InnerOk(t, size));
    forall u | u in r.threads
      ensures HoldsWell(r, u)
    {
      if u != t { assert HoldsWell(s, u); }
    }
    forall k | 0 <= k < |r.blocks|
      ensures BlockWell(r, k)
    {
      if k < |s.blocks| { assert BlockWell(s, k); }
    }
  }

  lemma OwnershipAdvance(s: State, t: Tid, pc: Pc)
    requires Ownership(s) && Enabled(s, Advance(t)) && pc == PcOf(s, t)
    ensures Ownership(NextOf(s, t, pc))
  {
    var r := NextOf(s, t, pc);
    assert HoldsWell(s, t);
    if Held(pc).Some? {
      OwnershipFrame(s, r, t, Held(pc).value);
    } else {
      OwnershipNoBlock(s, r, t);
    }
  }

  lemma OwnershipStep(s: State, step: Step)
    requires Ownership(s) && Enabled(s, step)
    ensures Ownership(Next(s, step))
  {
    match step
    case InnerOk(t, size) => OwnershipIssue(s, t, size);
    case InnerErr(t) => OwnershipNoBlock(s, Next(s, step), t);
    case StartFree(t, id) =>
      assert BlockWell(s, id);
      OwnershipFrame(s, Next(s, step), t, id);
    case Advance(t) => OwnershipAdvance(s, t, PcOf(s, t));
    case InnerEvent => OwnershipEvent(s);
  }

  lemma OwnershipEvent(s: State)
    requires Ownership(s)
    ensures Ownership(Next(s, InnerEvent))
  {
    var r := Next(s, InnerEvent);
    forall t | t in r.threads
      ensures HoldsWell(r, t)
    {
      assert HoldsWell(s, t);
    }
    forall k | 0 <= k < |r.blocks|
      ensures BlockWell(r, k)
    {
      assert BlockWell(s, k);
    }
  }

  lemma CountedIsLive(s: State)
    requires Ownership(s)
    ensures Sum(s.blocks, CountedBytes) <= Sum(s.blocks, LiveBytes)
  {
    forall i | 0 <= i < |s.blocks|
      ensures CountedBytes(s.blocks[i]) <= LiveBytes(s.blocks[i])
    {
      assert BlockWell(s, i);
    }
    SumLe(s.blocks, CountedBytes, LiveBytes);
  }

  lemma UpdateSums(s: State, id: nat, b: Block)
    requires id < |s.blocks|
    ensures Sum(s.blocks[id := b], CountedBytes) ==
            Sum(s.blocks, CountedBytes) - CountedBytes(s.blocks[id]) + CountedBytes(b)
    ensures Sum(s.blocks[id := b], LiveBytes) ==
            Sum(s.blocks, LiveBytes) - LiveBytes(s.blocks[id]) + LiveBytes(b)
    ensures Sum(s.blocks[id := b], Noted) == Sum(s.blocks, Noted) - Noted(s.blocks[id]) + Noted(b)
    ensures CountedBytes(s.blocks[id]) <= Sum(s.blocks, CountedBytes)
    ensures Noted(s.blocks[id]) <= Sum(s.blocks, Noted)
  {
    SumUpdate(s.blocks, CountedBytes, id, b);
    SumUpdate(s.blocks, LiveBytes, id, b);
    SumUpdate(s.blocks, Noted, id, b);
  }

  lemma TotalsCountUp(a: usize, d: usize, n: nat)
    requires a == (d + n) % M
    ensures FetchAdd(a, 1) == (d + (n + 1)) % M
  {
  }

  lemma TotalsCountDown(a: usize, d: usize, n: nat)
    requires a == (d + n) % M && n > 0
    ensures a == (FetchAdd(d, 1) + (n - 1)) % M
  {
  }

  /** The byte counter neither overflows nor underflows: the wrapping updates are exact. */
  lemma AccountingStep(s: State, step: Step)
    requires Ownership(s) && Accounting(s) && Enabled(s, step)
    ensures Accounting(Next(s, step))
    ensures step.Advance? && PcOf(s, step.t).AddBytes? ==>
              Next(s, step).c.bytesAllocated ==
              s.c.bytesAllocated + s.blocks[PcOf(s, step.t).id].size
    ensures step.Advance? && PcOf(s, step.t).SubBytes? ==>
              s.c.bytesAllocated >= s.blocks[PcOf(s, step.t).id].size
  {
    hide Sum;
    var r := Next(s, step);
    OwnershipStep(s, step);
    CountedIsLive(s);
    CountedIsLive(r);
    match step
    case InnerOk(t, size) => AccountingIssue(s, t, size);
    case StartFree(t, id) =>
      assert BlockWell(s, id);
      UpdateSums(s, id, r.blocks[id]);
      TotalsCountDown(s.c.totalAllocations, s.c.totalDeallocations, Sum(s.blocks, Noted));
    case Advance(t) => AccountingAdvance(s, t, PcOf(s, t));
    case InnerErr(_) =>
    case InnerEvent =>
  }

  lemma AccountingIssue(s: State, t: Tid, size: nat)
    requires Accounting(s) && Enabled(s, InnerOk(t, size))
    ensures Accounting(Next(s, InnerOk(t, size)))
  {
    var b := Block(size, InCall(t), false, false);
    SumAppend(s.blocks, CountedBytes, b);
    SumAppend(s.blocks, LiveBytes, b);
    SumAppend(s.blocks, Noted, b);
  }

  lemma FetchExact(x: usize, n: nat)
    ensures x + n <= USIZE_MAX ==> FetchAdd(x, n) == x + n
    ensures n <= x ==> FetchSub(x, n) == x - n
  {
  }

  lemma AccountingAdd(s: State, t: Tid, id: nat)
    requires Ownership(s) && Accounting(s) && PcOf(s, t) == AddBytes(id) && Enabled(s, Advance(t))
    requires Sum(NextOf(s, t, AddBytes(id)).blocks, CountedBytes) <=
             Sum(NextOf(s, t, AddBytes(id)).blocks, LiveBytes)
    ensures Accounting(NextOf(s, t, AddBytes(id)))
    ensures NextOf(s, t, AddBytes(id)).c.bytesAllocated == s.c.bytesAllocated + s.blocks[id].size
  {
    hide Sum;
    assert HoldsWell(s, t);
    UpdateSums(s, id, s.blocks[id].(counted := true));
    FetchExact(s.c.bytesAllocated, s.blocks[id].size);
  }

  lemma AccountingSub(s: State, t: Tid, id: nat)
    requires Ownership(s) && Accounting(s) && PcOf(s, t) == SubBytes(id) && Enabled(s, Advance(t))
    ensures Accounting(NextOf(s, t, SubBytes(id)))
    ensures s.c.bytesAllocated >= s.blocks[id].size
  {
    hide Sum;
    assert HoldsWell(s, t);
    UpdateSums(s, id, s.blocks[id].(counted := false));
    FetchExact(s.c.bytesAllocated, s.blocks[id].size);
  }

  lemma AccountingAdvance(s: State, t: Tid, pc: Pc)
    requires Ownership(s) && Accounting(s) && Enabled(s, Advance(t)) && pc == PcOf(s, t)
    requires Sum(NextOf(s, t, pc).blocks, CountedBytes) <= Sum(NextOf(s, t, pc).blocks, LiveBytes)
    ensures Accounting(NextOf(s, t, pc))
    ensures pc.AddBytes? ==>
              NextOf(s, t, pc).c.bytesAllocated == s.c.bytesAllocated + s.blocks[pc.id].size
    ensures pc.SubBytes? ==> s.c.bytesAllocated >= s.blocks[pc.id].size
  {
    hide Sum;
    assert HoldsWell(s, t);
    match pc
    case AddBytes(id) => AccountingAdd(s, t, id);
    case SubBytes(id) => AccountingSub(s, t, id);
    case NoteAlloc(id) =>
      UpdateSums(s, id, NextOf(s, t, pc).blocks[id]);
      TotalsCountUp(s.c.totalAllocations, s.c.totalDeallocations, Sum(s.blocks, Noted));
    case PeakLoad(id, _) => UpdateSums(s, id, s.blocks[id].(holder := Client));
    case PeakMax(id, _) => UpdateSums(s, id, s.blocks[id].(holder := Client));
    case Free(id) => UpdateSums(s, id, s.blocks[id].(holder := Gone));
    case _ =>
  }

  /** What a step does to the peak: the maximum moves only with the new local value in
      hand, and a pending value is given up only against a peak at least as large. */
  lemma PeakMoves(s: State, step: Step, u: Tid)
    requires Ownership(s) && Accounting(s) && PeakTracked(s) && Enabled(s, step)
    ensures var r := Next(s, step);
            && s.maxBytes <= r.maxBytes && s.c.bytesPeak <= r.c.bytesPeak <= r.maxBytes
            && (u in r.threads ==> PeakPending(PcOf(r, u)) <= r.maxBytes)
            && (r.maxBytes != s.maxBytes ==> step.Advance? && PeakPending(PcOf(r, step.t)) == r.maxBytes)
            && (PeakPending(PcOf(r, u)) == PeakPending(PcOf(s, u)) ||
                PeakPending(PcOf(r, u)) == r.c.bytesAllocated ||
                r.c.bytesPeak >= PeakPending(PcOf(s, u)))
  {
    hide Sum, Ownership;
    AccountingStep(s, step);
    if step.Advance? {
      var t := step.t;
      assert t in s.threads;
      assert PeakPending(PcOf(s, t)) <= s.maxBytes;
      if u in s.threads { assert PeakPending(PcOf(s, u)) <= s.maxBytes; }
    } else if u in s.threads {
      assert PeakPending(PcOf(s, u)) <= s.maxBytes;
    }
  }

  lemma PeakStep(s: State, step: Step)
    requires Ownership(s) && Accounting(s) && PeakTracked(s) && Enabled(s, step)
    ensures PeakTracked(Next(s, step))
  {
    hide Sum, NextOf, Ownership;
    var r := Next(s, step);
    forall u | u in r.threads
      ensures PeakPending(PcOf(r, u)) <= r.maxBytes
    {
      PeakMoves(s, step, u);
    }
    PeakMoves(s, step, 0);
    if r.maxBytes != s.maxBytes {
      assert step.t in r.threads;
    } else if r.c.bytesPeak != r.maxBytes {
      var t :| t in s.threads && PeakPending(PcOf(s, t)) == s.maxBytes;
      PeakMoves(s, step, t);
      PendingStays(s, step, t);
    }
  }

  lemma PendingStays(s: State, step: Step, t: Tid)
    requires Enabled(s, step) && t in s.threads && PeakPending(PcOf(s, t)) > 0
    ensures var r := Next(s, step);
            t in r.threads && (PeakPending(PcOf(r, t)) == PeakPending(PcOf(s, t)) ||
                               r.c.bytesPeak >= Min(PeakPending(PcOf(s, t)), USIZE_MAX))
  {
  }

  lemma MirrorStep(s: State, step: Step)
    requires MirrorTracked(s) && Enabled(s, step)
    ensures MirrorTracked(Next(s, step))
  {
    hide Sum;
    var r := Next(s, step);
    forall t | t in r.threads
      ensures MirrorPending(PcOf(r, t)) <= r.maxPolled
    {
      if t in s.threads { assert MirrorPending(PcOf(s, t)) <= s.maxPolled; }
    }
    if r.c.corruptionEvents != r.maxPolled {
      if r.maxPolled != s.maxPolled {
        assert MirrorPending(PcOf(r, step.t)) == r.maxPolled;
      } else {
        var t :| t in s.threads && MirrorPending(PcOf(s, t)) == s.maxPolled;
        assert MirrorPending(PcOf(r, t)) == r.maxPolled;
      }
    }
  }

  // ------------------------------------------------------------ whole runs

  ghost predicate IsRun(states: seq<State>, steps: seq<Step>) {
    && |states| == |steps| + 1 && Init(states[0])
    && forall i :: 0 <= i < |steps| ==>
         Enabled(states[i], steps[i]) && states[i + 1] == Next(states[i], steps[i])
  }

  lemma {:induction false} RunKeepsInv(states: seq<State>, steps: seq<Step>, n: nat)
    requires IsRun(states, steps) && n <= |steps|
    ensures Inv(states[n])
  {
    if n > 0 {
      RunKeepsInv(states, steps, n - 1);
      OwnershipStep(states[n - 1], steps[n - 1]);
      AccountingStep(states[n - 1], steps[n - 1]);
      PeakStep(states[n - 1], steps[n - 1]);
      MirrorStep(states[n - 1], steps[n - 1]);
    }
  }

  ghost predicate Quiescent(s: State) { forall t :: t in s.threads ==> PcOf(s, t).Idle? }

  /** `m` is the largest of `bytes_allocated` over the first `n + 1` states. */
  ghost predicate IsHistoricalMax(states: seq<State>, n: nat, m: nat)
    requires n < |states|
  {
    && (forall i :: 0 <= i <= n ==> states[i].c.bytesAllocated <= m)
    && (exists i :: 0 <= i <= n && states[i].c.bytesAllocated == m)
  }

  lemma {:induction false} MaxBytesIsHistory(states: seq<State>, steps: seq<Step>, n: nat)
    requires IsRun(states, steps) && n <= |steps|
    ensures IsHistoricalMax(states, n, states[n].maxBytes)
  {
    hide Sum, NextOf, Next, Inv;
    if n > 0 {
      MaxBytesIsHistory(states, steps, n - 1);
      RunKeepsInv(states, steps, n);
      BytesBelowMax(states[n]);
      MaxBytesStep(states[n - 1], steps[n - 1]);
      if states[n].maxBytes == states[n - 1].maxBytes {
        var i :| 0 <= i <= n - 1 && states[i].c.bytesAllocated == states[n - 1].maxBytes;
        assert states[i].c.bytesAllocated == states[n].maxBytes;
      } else {
        assert states[n].c.bytesAllocated == states[n].maxBytes;
      }
    }
  }

  lemma BytesBelowMax(s: State)
    requires Inv(s)
    ensures s.c.bytesAllocated <= s.maxBytes
  {
  }

  lemma MaxBytesStep(s: State, step: Step)
    requires Enabled(s, step)
    ensures s.maxBytes <= Next(s, step).maxBytes
    ensures Next(s, step).maxBytes != s.maxBytes ==>
              Next(s, step).maxBytes == Next(s, step).c.bytesAllocated
  {
  }

  /** In every run, whenever no call is in flight: the recorded peak is the largest value
      the byte counter ever held, despite the load-and-skip; the byte counter is the sum
      of the sizes of the blocks clients hold; the two totals differ by exactly the number
      of those blocks (as words); and the mirror is the largest count ever polled. */
  lemma QuiescentReading(states: seq<State>, steps: seq<Step>, n: nat)
    requires IsRun(states, steps) && n <= |steps| && Quiescent(states[n])
    ensures var s := states[n];
            && IsHistoricalMax(states, n, s.c.bytesPeak)
            && s.c.bytesAllocated == Sum(s.blocks, CountedBytes)
            && (forall id :: 0 <= id < |s.blocks| ==> (s.blocks[id].counted <==> s.blocks[id].holder.Client?))
            && s.c.totalAllocations == FetchAdd(s.c.totalDeallocations, Sum(s.blocks, ClientHeld))
            && s.c.corruptionEvents == s.maxPolled
  {
    var s := states[n];
    RunKeepsInv(states, steps, n);
    MaxBytesIsHistory(states, steps, n);
    forall id | 0 <= id < |s.blocks|
      ensures s.blocks[id].counted <==> s.blocks[id].holder.Client?
      ensures Noted(s.blocks[id]) == ClientHeld(s.blocks[id])
    {
      assert BlockWell(s, id);
    }
    SumLe(s.blocks, Noted, ClientHeld);
    SumLe(s.blocks, ClientHeld, Noted);
    assert s.maxBytes == 0 ==> s.c.bytesPeak == s.maxBytes;
  }

  /** At every moment of every run, in flight or not: the byte counter is exactly the
      summed sizes of the counted blocks, and the next free of a counted block can
      subtract its size without wrapping. */
  lemma NeverUnderflows(states: seq<State>, steps: seq<Step>, n: nat, t: Tid)
    requires IsRun(states, steps) && n <= |steps| && PcOf(states[n], t).SubBytes?
    ensures var s, id := states[n], PcOf(states[n], t).id;
            && s.c.bytesAllocated == Sum(s.blocks, CountedBytes)
            && id < |s.blocks| && s.blocks[id].counted
            && FetchSub(s.c.bytesAllocated, s.blocks[id].size) == s.c.bytesAllocated - s.blocks[id].size
  {
    hide Sum, Next, PeakTracked, MirrorTracked, CountedBytes, FetchSub;
    var s, id := states[n], PcOf(states[n], t).id;
    RunKeepsInv(states, steps, n);
    assert HoldsWell(s, t);
    SumUpdate(s.blocks, CountedBytes, id, s.blocks[id]);
    CountedSize(s.blocks[id]);
    FetchExact(s.c.bytesAllocated, s.blocks[id].size);
  }

  lemma CountedSize(b: Block)
    requires b.counted
    ensures CountedBytes(b) == b.size
  {
  }

  // ------------------------------------------------------------ the object

  /** `k` further steps of thread `t`, the others standing still. */
  ghost function Alone(s: State, t: Tid, k: nat): State {
    if k == 0 then s
    else
      var r := Alone(s, t, k - 1);
      if Enabled(r, Advance(t)) then Next(r, Advance(t)) else r
  }

  lemma AloneStep(s: State, t: Tid, k: nat)
    ensures Enabled(Alone(s, t, k), Advance(t)) ==>
              Alone(s, t, k + 1) == NextOf(Alone(s, t, k), t, PcOf(Alone(s, t, k), t))
  {
  }

  /** The wrapper with its counters as fields. Each method is one call as written, run
      without interruption; `machine` follows it step by step, so every value read or
      written is the one the step machine has at that point. */
  class Wrapper {
    var totalAllocations: usize
    var totalDeallocations: usize
    var bytesAllocated: usize
    var bytesPeak: usize
    var failures: usize
    var corruptionEvents: usize
    ghost var machine: State

    ghost predicate Mirrors()
      reads this
    {
      machine.c == Counters(totalAllocations, totalDeallocations, bytesAllocated, bytesPeak, failures, corruptionEvents)
    }

    constructor ()
      ensures Mirrors() && Init(machine)
    {
      totalAllocations, totalDeallocations, bytesAllocated, bytesPeak, failures, corruptionEvents := 0, 0, 0, 0, 0, 0;
      machine := State(Counters(0, 0, 0, 0, 0, 0), [], map[], 0, 0, 0);
    }

    /** The thread's next atomic access, on the machine's side. */
    ghost method Tick(t: Tid, start: State, k: nat)
      requires Enabled(machine, Advance(t)) && machine == Alone(start, t, k)
      modifies this`machine
      ensures machine == NextOf(old(machine), t, PcOf(old(machine), t)) == Alone(start, t, k + 1)
    {
      AloneStep(start, t, k);
      machine := NextOf(machine, t, PcOf(machine, t));
    }

    /** `mirror_corruption`. */
    method MirrorCorruption(innerVal: nat, ghost t: Tid, ghost k: Cont, ghost start: State, ghost n: nat)
      returns (ghost m: nat)
      requires Mirrors() && machine == Alone(start, t, n) && innerVal == machine.innerEvents
      requires t in machine.threads && machine.threads[t] == Poll(k)
      requires HeldBy(k).Some? ==> HeldBy(k).value < |machine.blocks|
      modifies this`corruptionEvents, this`machine
      ensures Mirrors() && machine == Alone(start, t, m)
      ensures corruptionEvents == Max(old(corruptionEvents), Min(innerVal, USIZE_MAX))
      ensures machine.blocks == old(machine.blocks) && PcOf(machine, t) == Resume(k)
    {
      hide Alone, Sum;
      var clamped := Min(innerVal, USIZE_MAX);
      Tick(t, start, n);
      var seen := corruptionEvents;
      Tick(t, start, n + 1);
      m := n + 2;
      if clamped > seen {
        corruptionEvents := Max(corruptionEvents, clamped);
        Tick(t, start, n + 2);
        m := n + 3;
      }
    }

    /** The counters' half of a successful `allocate`. */
    method CountAllocation(size: usize, ghost t: Tid, ghost id: nat, ghost start: State, ghost n: nat)
      returns (ghost m: nat)
      requires Mirrors() && machine == Alone(start, t, n) && PcOf(machine, t) == NoteAlloc(id)
      requires id < |machine.blocks| && machine.blocks[id].size == size
      modifies this
      ensures Mirrors() && machine == Alone(start, t, m) && PcOf(machine, t).Idle?
      ensures totalAllocations == FetchAdd(old(totalAllocations), 1)
      ensures bytesAllocated == FetchAdd(old(bytesAllocated), size)
      ensures bytesPeak == Max(old(bytesPeak), Min(old(bytesAllocated) + size, USIZE_MAX))
      ensures totalDeallocations == old(totalDeallocations) && failures == old(failures)
      ensures corruptionEvents == old(corruptionEvents)
      ensures machine.blocks == old(machine.blocks)[id := Block(size, Client, true, true)]
    {
      hide Alone, Sum, FetchAdd;
      totalAllocations := FetchAdd(totalAllocations, 1);
      Tick(t, start, n);
      var prev := bytesAllocated;
      bytesAllocated := FetchAdd(bytesAllocated, size);
      Tick(t, start, n + 1);
      m := RecordPeak(Min(prev + size, USIZE_MAX), t, id, start, n + 2);
    }

    method RecordPeak(new_: usize, ghost t: Tid, ghost id: nat, ghost start: State, ghost n: nat)
      returns (ghost m: nat)
      requires Mirrors() && machine == Alone(start, t, n) && PcOf(machine, t) == PeakLoad(id, new_)
      requires id < |machine.blocks|
      modifies this`bytesPeak, this`machine
      ensures Mirrors() && machine == Alone(start, t, m) && PcOf(machine, t).Idle?
      ensures bytesPeak == Max(old(bytesPeak), new_)
      ensures machine.blocks == old(machine.blocks)[id := old(machine.blocks[id]).(holder := Client)]
    {
      hide Alone, Sum;
      var peakNow := bytesPeak;
      Tick(t, start, n);
      m := n + 1;
      if new_ > peakNow {
        bytesPeak := Max(bytesPeak, new_);
        Tick(t, start, n + 1);
        m := n + 2;
      }
    }

    /** `allocate`: `inner` is the size of the block the inner issued, `innerEvents` its
        corruption count. */
    method Allocate(t: Tid, inner: Option<usize>, innerEvents: nat) returns (ok: bool, ghost steps: nat)
      requires Mirrors() && innerEvents == machine.innerEvents
      requires Enabled(machine, if inner.Some? then InnerOk(t, inner.value) else InnerErr(t))
      modifies this
      ensures Mirrors() && PcOf(machine, t).Idle? && ok == inner.Some?
      ensures var first := if inner.Some? then InnerOk(t, inner.value) else InnerErr(t);
              machine == Alone(Next(old(machine), first), t, steps)
      ensures corruptionEvents == Max(old(corruptionEvents), Min(innerEvents, USIZE_MAX))
      ensures totalDeallocations == old(totalDeallocations)
      ensures if ok
              then && totalAllocations == FetchAdd(old(totalAllocations), 1)
                   && bytesAllocated == FetchAdd(old(bytesAllocated), inner.value)
                   && bytesPeak == Max(old(bytesPeak), Min(old(bytesAllocated) + inner.value, USIZE_MAX))
                   && failures == old(failures)
                   && machine.blocks == old(machine.blocks) + [Block(inner.value, Client, true, true)]
              else && failures == FetchAdd(old(failures), 1) && bytesAllocated == old(bytesAllocated)
                   && bytesPeak == old(bytesPeak) && totalAllocations == old(totalAllocations)
                   && machine.blocks == old(machine.blocks)
    {
      hide Sum, NextOf;
      ghost var id := |machine.blocks|;
      machine := Next(machine, if inner.Some? then InnerOk(t, inner.value) else InnerErr(t));
      ghost var start := machine;
      steps := MirrorCorruption(innerEvents, t, if inner.Some? then AfterOk(id) else AfterErr, start, 0);
      if inner.Some? {
        steps := CountAllocation(inner.value, t, id, start, steps);
        return true, steps;
      }
      CountFailure(t, start, steps);
      return false, steps + 1;
    }

    method CountFailure(ghost t: Tid, ghost start: State, ghost n: nat)
      requires Mirrors() && machine == Alone(start, t, n) && PcOf(machine, t) == NoteFailure
      modifies this`failures, this`machine
      ensures Mirrors() && machine == Alone(start, t, n + 1) && PcOf(machine, t).Idle?
      ensures failures == FetchAdd(old(failures), 1) && machine.blocks == old(machine.blocks)
    {
      hide Alone, Sum;
      failures := FetchAdd(failures, 1);
      Tick(t, start, n);
    }

    /** `deallocate` of the client's block `id`; the inner gets it back last. */
    method Deallocate(t: Tid, size: usize, innerEvents: nat, ghost id: nat) returns (ghost steps: nat)
      requires Mirrors() && innerEvents == machine.innerEvents
      requires Enabled(machine, StartFree(t, id)) && machine.blocks[id].size == size
      modifies this
      ensures Mirrors() && PcOf(machine, t).Idle?
      ensures machine == Alone(Next(old(machine), StartFree(t, id)), t, steps)
      ensures totalDeallocations == FetchAdd(old(totalDeallocations), 1)
      ensures bytesAllocated == FetchSub(old(bytesAllocated), size)
      ensures corruptionEvents == Max(old(corruptionEvents), Min(innerEvents, USIZE_MAX))
      ensures totalAllocations == old(totalAllocations) && bytesPeak == old(bytesPeak) && failures == old(failures)
      ensures machine.blocks == old(machine.blocks)[id := Block(size, Gone, false, false)]
    {
      hide Sum, NextOf, FetchAdd, FetchSub;
      totalDeallocations := FetchAdd(totalDeallocations, 1);
      machine := Next(machine, StartFree(t, id));
      ghost var start := machine;
      SubtractBytes(size, t, id, start);
      steps := MirrorCorruption(innerEvents, t, ThenFree(id), start, 1);
      GiveBack(t, id, start, steps);
      steps := steps + 1;
    }

    method SubtractBytes(size: usize, ghost t: Tid, ghost id: nat, ghost start: State)
      requires Mirrors() && machine == start && PcOf(machine, t) == SubBytes(id)
      requires id < |machine.blocks| && machine.blocks[id].size == size
      modifies this`bytesAllocated, this`machine
      ensures Mirrors() && machine == Alone(start, t, 1)
      ensures t in machine.threads && machine.threads[t] == Poll(ThenFree(id))
      ensures bytesAllocated == FetchSub(old(bytesAllocated), size)
      ensures machine.innerEvents == old(machine.innerEvents)
      ensures machine.blocks == old(machine.blocks)[id := old(machine.blocks[id]).(counted := false)]
    {
      hide Sum, FetchSub;
      bytesAllocated := FetchSub(bytesAllocated, size);
      Tick(t, start, 0);
    }

    /** The inner's `deallocate`. */
    ghost method GiveBack(t: Tid, id: nat, start: State, n: nat)
      requires Mirrors() && machine == Alone(start, t, n) && PcOf(machine, t) == Free(id)
      requires id < |machine.blocks|
      modifies this`machine
      ensures Mirrors() && machine == Alone(start, t, n + 1) && PcOf(machine, t).Idle?
      ensures machine.blocks == old(machine.blocks)[id := old(machine.blocks[id]).(holder := Gone)]
    {
      hide Sum, Alone;
      Tick(t, start, n);
    }
  }
}
