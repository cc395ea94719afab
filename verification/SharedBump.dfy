/** `SharedBumpArena`: any number of threads running the compare-and-swap loop of
    `allocate` on one cursor. Every load and every compare-and-swap is one step. */
module SharedBump {
  import opened Words
  import opened Layouts
  import opened BumpMath
  import Mmap
  import BumpArenas

  type Tid = nat

  /** Where a thread is inside `allocate`: `Trying` is the loop, with the cursor value it
      last saw. The remaining fields are history: the log length and the cursor at the
      first load, and the compare-and-swaps lost to other threads since. */
  datatype Pc =
    | Idle
    | Trying(l: NonZeroLayout, cur: usize, startLog: nat, startCur: nat, retries: nat)

  /** A successful compare-and-swap. */
  datatype Entry = Entry(t: Tid, l: NonZeroLayout, p: Placement)

  /** A finished call: the log index of its block or an error, and the log lengths when
      it began and when it returned. */
  datatype Answer = Answer(t: Tid, l: NonZeroLayout, index: Option<nat>, startLog: nat, endLog: nat)

  datatype State = State(base: usize, capacity: usize, cursor: usize, threads: map<Tid, Pc>,
                         log: seq<Entry>, answers: seq<Answer>)

  datatype Step =
    | Load(t: Tid, l: NonZeroLayout)
    | Fail(t: Tid)
    | CasWins(t: Tid)
    | CasLoses(t: Tid)
    | CasSpurious(t: Tid)

  function PcOf(s: State, t: Tid): Pc {
    if t in s.threads then s.threads[t] else Idle
  }

  ghost predicate Init(s: State) {
    && s.capacity > 0 && s.cursor == 0 && s.threads == map[] && s.log == [] && s.answers == []
  }

  function Attempt(s: State, t: Tid): Option<Placement>
    requires PcOf(s, t).Trying?
  {
    Place(s.base, PcOf(s, t).cur, s.capacity, PcOf(s, t).l)
  }

  predicate Enabled(s: State, step: Step) {
    match step
    case Load(t, _) => PcOf(s, t).Idle?
    case Fail(t) => PcOf(s, t).Trying? && Attempt(s, t) == None
    case CasWins(t) => PcOf(s, t).Trying? && Attempt(s, t).Some? && s.cursor == PcOf(s, t).cur
    case CasLoses(t) => PcOf(s, t).Trying? && Attempt(s, t).Some? && s.cursor != PcOf(s, t).cur
    case CasSpurious(t) => PcOf(s, t).Trying? && Attempt(s, t).Some? && s.cursor == PcOf(s, t).cur
  }

  function Next(s: State, step: Step): State
    requires Enabled(s, step)
  {
    match step
    case Load(t, l) =>
      s.(threads := s.threads[t := Trying(l, s.cursor, |s.log|, s.cursor, 0)])
    case Fail(t) =>
      var pc := PcOf(s, t);
      s.(threads := s.threads[t := Idle],
         answers := s.answers + [Answer(t, pc.l, None, pc.startLog, |s.log|)])
    case CasWins(t) =>
      var pc, p := PcOf(s, t), Attempt(s, t).value;
      s.(cursor := p.end, threads := s.threads[t := Idle], log := s.log + [Entry(t, pc.l, p)],
         answers := s.answers + [Answer(t, pc.l, Some(|s.log|), pc.startLog, |s.log| + 1)])
    case CasLoses(t) =>
      var pc := PcOf(s, t);
      s.(threads := s.threads[t := pc.(cur := s.cursor, retries := pc.retries + 1)])
    case CasSpurious(t) => s
  }

  // ------------------------------------------------------------ linearization

  function CursorAfter(log: seq<Entry>): nat {
    if log == [] then 0 else log[|log| - 1].p.end
  }

  /** The sequential arena, started empty and given the log's requests in order, returns
      the log's blocks. */
  ghost predicate SequentialRun(base: usize, capacity: usize, log: seq<Entry>) {
    forall k :: 0 <= k < |log| ==>
      && CursorAfter(log[..k]) <= USIZE_MAX
      && Place(base, CursorAfter(log[..k]), capacity, log[k].l) == Some(log[k].p)
  }

  /** A return is justified by some moment between the call and the return: the entry of
      that index for a success, a log length at which the sequential arena would have
      refused the same request for an error. */
  ghost predicate Justified(s: State, r: Answer) {
    && r.startLog <= r.endLog <= |s.log|
    && match r.index
       case Some(k) => r.startLog <= k < r.endLog && s.log[k].l == r.l && s.log[k].t == r.t
       case None =>
         exists m :: r.startLog <= m <= r.endLog && Refuses(s, m, r.l)
  }

  ghost predicate Refuses(s: State, m: nat, l: NonZeroLayout) {
    && m <= |s.log| && CursorAfter(s.log[..m]) <= USIZE_MAX
    && Place(s.base, CursorAfter(s.log[..m]), s.capacity, l) == None
  }

  /** A call in flight: it has seen a past cursor, everything logged since its first load
      is the work of other threads, and its lost compare-and-swaps number at most those
      entries and at most the bytes the cursor has advanced. */
  ghost predicate InFlight(s: State, t: Tid, pc: Pc) {
    pc.Trying? ==>
      && pc.startCur <= pc.cur <= s.cursor
      && pc.startLog <= |s.log|
      && (forall k :: pc.startLog <= k < |s.log| ==> s.log[k].t != t)
      && pc.retries <= pc.cur - pc.startCur
      && pc.retries <= |s.log| - pc.startLog
      && (pc.cur < s.cursor ==> pc.retries < |s.log| - pc.startLog)
  }

  ghost predicate Inv(s: State) {
    && SequentialRun(s.base, s.capacity, s.log)
    && s.cursor == CursorAfter(s.log) <= s.capacity
    && (forall t :: t in s.threads ==> InFlight(s, t, s.threads[t]))
    && (forall i :: 0 <= i < |s.answers| ==> Justified(s, s.answers[i]))
  }

  lemma LogPrefix(s: State, r: State, e: Entry)
    requires r.log == s.log + [e]
    ensures forall k :: 0 <= k <= |s.log| ==> r.log[..k] == s.log[..k]
  {
  }

  lemma JustifiedLater(s: State, r: State, ret: Answer)
    requires Justified(s, ret)
    requires r.base == s.base && r.capacity == s.capacity && s.log <= r.log
    ensures Justified(r, ret)
  {
    if ret.index == None {
      var m :| ret.startLog <= m <= ret.endLog && Refuses(s, m, ret.l);
      assert r.log[..m] == s.log[..m];
      assert Refuses(r, m, ret.l);
    }
  }

  lemma JustifiedAll(s: State, r: State)
    requires Inv(s) && r.base == s.base && r.capacity == s.capacity && s.log <= r.log
    ensures forall i :: 0 <= i < |s.answers| ==> Justified(r, s.answers[i])
  {
    forall i | 0 <= i < |s.answers|
      ensures Justified(r, s.answers[i])
    {
      JustifiedLater(s, r, s.answers[i]);
    }
  }

  lemma WinKeepsInv(s: State, t: Tid)
    requires Inv(s) && Enabled(s, CasWins(t))
    ensures Inv(Next(s, CasWins(t)))
    ensures s.cursor < Next(s, CasWins(t)).cursor
  {
    hide BitAnd, RoundUp, Place;
    var r := Next(s, CasWins(t));
    var pc, p := PcOf(s, t), Attempt(s, t).value;
    PlaceIsSound(s.base, s.cursor, s.capacity, pc.l);
    LogPrefix(s, r, Entry(t, pc.l, p));
    JustifiedAll(s, r);
    assert s.log[..|s.log|] == s.log;
  }

  lemma FailKeepsInv(s: State, t: Tid)
    requires Inv(s) && Enabled(s, Fail(t))
    ensures Inv(Next(s, Fail(t)))
    ensures Place(s.base, s.cursor, s.capacity, PcOf(s, t).l) == None
  {
    hide BitAnd, RoundUp;
    var r := Next(s, Fail(t));
    var pc := PcOf(s, t);
    PlaceMonotone(s.base, pc.cur, s.cursor, s.capacity, pc.l);
    JustifiedAll(s, r);
    assert r.log[..|r.log|] == r.log;
    assert Refuses(r, |r.log|, pc.l);
  }

  /** Every step of every thread keeps the invariant. */
  lemma NextKeepsInv(s: State, step: Step)
    requires Inv(s) && Enabled(s, step)
    ensures Inv(Next(s, step))
    ensures s.cursor <= Next(s, step).cursor && s.log <= Next(s, step).log
  {
    hide BitAnd, RoundUp;
    match step
    case CasWins(t) => WinKeepsInv(s, t);
    case Fail(t) => FailKeepsInv(s, t);
    case Load(_, _) => JustifiedAll(s, Next(s, step));
    case CasLoses(_) => JustifiedAll(s, Next(s, step));
    case CasSpurious(_) =>
  }

  // ------------------------------------------------------------ whole runs

  /** A run from the initial state: any threads, any requests, any interleaving. */
  ghost predicate IsRun(states: seq<State>, steps: seq<Step>) {
    && |states| == |steps| + 1 && Init(states[0])
    && forall i :: 0 <= i < |steps| ==>
         Enabled(states[i], steps[i]) && states[i + 1] == Next(states[i], steps[i])
  }

  lemma {:induction false} RunKeepsInv(states: seq<State>, steps: seq<Step>, n: nat)
    requires IsRun(states, steps) && n <= |steps|
    ensures Inv(states[n])
  {
    if n > 0 {
      RunKeepsInv(states, steps, n - 1);
      NextKeepsInv(states[n - 1], steps[n - 1]);
    }
  }

  /** In every run, a lost compare-and-swap strictly shrinks what the loop has left of the
      region: the cursor it lost to is later than the one it saw and within the capacity. */
  lemma LossShrinks(states: seq<State>, steps: seq<Step>, i: nat, t: Tid)
    requires IsRun(states, steps) && i < |steps| && steps[i] == CasLoses(t)
    ensures PcOf(states[i], t).Trying? && PcOf(states[i + 1], t).Trying?
    ensures var before, after := PcOf(states[i], t), PcOf(states[i + 1], t);
            && 0 <= states[i + 1].capacity - after.cur < states[i].capacity - before.cur
            && after.l == before.l && after.cur == states[i].cursor
  {
    hide Place, SequentialRun, Justified;
    RunKeepsInv(states, steps, i);
    assert InFlight(states[i], t, states[i].threads[t]);
  }

  /** How many compare-and-swaps thread `t` loses in steps `i` to `n`. */
  ghost function Lost(steps: seq<Step>, t: Tid, i: nat, n: nat): nat
    requires i <= n <= |steps|
    decreases n
  {
    if i == n then 0 else Lost(steps, t, i, n - 1) + (if steps[n - 1] == CasLoses(t) then 1 else 0)
  }

  /** The call that thread `t` begins at step `i` has not returned before state `n`. */
  ghost predicate OneCall(states: seq<State>, steps: seq<Step>, t: Tid, i: nat, n: nat)
    requires |states| == |steps| + 1
  {
    && i < n <= |steps| && steps[i].Load? && steps[i].t == t
    && forall k :: i < k <= n ==> PcOf(states[k], t).Trying?
  }

  lemma CallStep(s: State, step: Step, t: Tid)
    requires Enabled(s, step) && PcOf(s, t).Trying? && PcOf(Next(s, step), t).Trying?
    ensures var p, q := PcOf(s, t), PcOf(Next(s, step), t);
            && q.startLog == p.startLog && q.startCur == p.startCur && q.l == p.l
            && q.retries == p.retries + (if step == CasLoses(t) then 1 else 0)
  {
    hide Place;
  }

  lemma {:induction false} CallTracked(states: seq<State>, steps: seq<Step>, t: Tid, i: nat, n: nat)
    requires IsRun(states, steps) && OneCall(states, steps, t, i, n)
    ensures var pc := PcOf(states[n], t);
            && pc.retries == Lost(steps, t, i, n) && pc.l == steps[i].l
            && pc.startLog == |states[i].log| && pc.startCur == states[i].cursor
    decreases n
  {
    hide Next, Enabled, Init;
    if n == i + 1 {
      LoadStarts(states[i], steps[i]);
      assert Lost(steps, t, i, i) == 0;
    } else {
      CallTracked(states, steps, t, i, n - 1);
      assert PcOf(states[n - 1], t).Trying? && states[n] == Next(states[n - 1], steps[n - 1]);
      CallStep(states[n - 1], steps[n - 1], t);
    }
  }

  lemma LoadStarts(s: State, step: Step)
    requires Enabled(s, step) && step.Load?
    ensures PcOf(Next(s, step), step.t) == Trying(step.l, s.cursor, |s.log|, s.cursor, 0)
  {
  }

  /** Lock-free progress, for every call of every run: the compare-and-swaps it has lost so
      far number at most the bytes the cursor has advanced since it began, hence at most the
      capacity, and at most the successes logged since, every one of them another thread's. */
  lemma LossesArePaid(states: seq<State>, steps: seq<Step>, t: Tid, i: nat, n: nat)
    requires IsRun(states, steps) && OneCall(states, steps, t, i, n)
    ensures Lost(steps, t, i, n) <= states[n].cursor - states[i].cursor <= states[n].capacity
    ensures Lost(steps, t, i, n) <= |states[n].log| - |states[i].log|
    ensures forall k :: |states[i].log| <= k < |states[n].log| ==> states[n].log[k].t != t
  {
    hide Next, Enabled, Init, SequentialRun, Justified;
    RunKeepsInv(states, steps, n);
    CallTracked(states, steps, t, i, n);
    KnownThread(states[n], t);
    assert InFlight(states[n], t, states[n].threads[t]);
  }

  /** Every call that returns leaves one answer, for the request it began with: its block's
      place in the log, or an error, between the log lengths at its call and its return. */
  lemma CallAnswered(states: seq<State>, steps: seq<Step>, t: Tid, i: nat, n: nat)
    requires IsRun(states, steps) && OneCall(states, steps, t, i, n) && n < |steps|
    requires steps[n] == CasWins(t) || steps[n] == Fail(t)
    ensures var s, r, won := states[n], states[n + 1], steps[n].CasWins?;
            && PcOf(r, t).Idle?
            && |r.log| == |s.log| + (if won then 1 else 0)
            && (won ==> r.log[|s.log|].t == t && r.log[|s.log|].l == steps[i].l)
            && r.answers == s.answers +
               [Answer(t, steps[i].l, if won then Some(|s.log|) else None, |states[i].log|, |r.log|)]
  {
    hide Next, Init, Place, Inv;
    RunKeepsInv(states, steps, n);
    CallTracked(states, steps, t, i, n);
    if steps[n].CasWins? { WinAnswers(states[n], t); } else { FailAnswers(states[n], t); }
  }

  lemma KnownThread(s: State, t: Tid)
    requires PcOf(s, t).Trying?
    ensures t in s.threads && s.threads[t] == PcOf(s, t)
  {
  }

  ghost predicate DisjointBlocks(p: Placement, q: Placement) { p.end <= q.off || q.end <= p.off }

  lemma SequentialRunOrdered(base: usize, capacity: usize, log: seq<Entry>, j: nat, k: nat)
    requires SequentialRun(base, capacity, log) && j < k < |log|
    ensures log[j].p.end <= log[k].p.off
    decreases k
  {
    assert log[..k][|log[..k]| - 1] == log[k - 1];
    if j < k - 1 { SequentialRunOrdered(base, capacity, log, j, k - 1); }
  }

  lemma EntrySound(s: State, k: nat)
    requires SequentialRun(s.base, s.capacity, s.log) && k < |s.log|
    ensures 0 < s.log[k].l.align && Aligned(s.base + s.log[k].p.off, s.log[k].l.align)
    ensures s.log[k].p.end <= s.capacity
  {
    hide BitAnd, RoundUp, Aligned, Place;
    PlaceIsSound(s.base, CursorAfter(s.log[..k]), s.capacity, s.log[k].l);
  }

  /** In every run, at every moment: the issued blocks are aligned, in range and pairwise
      disjoint, and every answer given so far is one the sequential arena gives at some
      moment between the call and the return. */
  lemma RunLinearizable(states: seq<State>, steps: seq<Step>, n: nat)
    requires IsRun(states, steps) && n <= |steps|
    ensures SequentialRun(states[n].base, states[n].capacity, states[n].log)
    ensures forall i :: 0 <= i < |states[n].answers| ==> Justified(states[n], states[n].answers[i])
    ensures forall k :: 0 <= k < |states[n].log| ==>
              var e := states[n].log[k];
              Aligned(states[n].base + e.p.off, e.l.align) && e.p.end <= states[n].capacity
    ensures forall j, k :: 0 <= j < k < |states[n].log| ==>
              DisjointBlocks(states[n].log[j].p, states[n].log[k].p)
  {
    hide Aligned, Next, Enabled, Justified, InFlight, SequentialRun, Init;
    RunKeepsInv(states, steps, n);
    var s := states[n];
    forall k | 0 <= k < |s.log|
      ensures 0 < s.log[k].l.align && Aligned(s.base + s.log[k].p.off, s.log[k].l.align)
      ensures s.log[k].p.end <= s.capacity
    {
      EntrySound(s, k);
    }
    forall j, k | 0 <= j < k < |s.log|
      ensures DisjointBlocks(s.log[j].p, s.log[k].p)
    {
      SequentialRunOrdered(s.base, s.capacity, s.log, j, k);
    }
  }

  // ------------------------------------------------------------ against BumpArena

  ghost function Requests(log: seq<Entry>): (ops: seq<BumpArenas.Op>)
    ensures |ops| == |log|
    ensures forall k :: 0 <= k < |log| ==> ops[k] == BumpArenas.Alloc(log[k].l, true)
  {
    seq(|log|, k requires 0 <= k < |log| => BumpArenas.Alloc(log[k].l, true))
  }

  ghost function Blocks(log: seq<Entry>): (bs: seq<BumpArenas.Block>)
    ensures |bs| == |log|
    ensures forall k :: 0 <= k < |log| ==>
              bs[k] == BumpArenas.Block(log[k].p.off, log[k].l.size, log[k].l.align)
  {
    seq(|log|, k requires 0 <= k < |log| => BumpArenas.Block(log[k].p.off, log[k].l.size, log[k].l.align))
  }

  /** `a` is a sequential arena over the same fully committed range, having served the
      first `n` requests of the log. */
  ghost predicate ServedPrefix(a: BumpArenas.Arena, base: nat, capacity: nat, log: seq<Entry>, n: nat) {
    && BumpArenas.Inv(a) && n <= |log|
    && a.region.base == base && a.region.len == capacity && a.region.committed == capacity
    && a.cursor == CursorAfter(log[..n]) && a.live == Blocks(log[..n])
  }

  /** One granted request on a fully committed arena. */
  lemma ServeOne(a: BumpArenas.Arena, l: NonZeroLayout, p: Placement)
    requires BumpArenas.Inv(a) && a.region.committed == a.region.len
    requires Place(a.region.base, a.cursor, a.region.len, l) == Some(p)
    ensures BumpArenas.Apply(a, BumpArenas.Alloc(l, true)) ==
            a.(cursor := p.end, live := a.live + [BumpArenas.Block(p.off, l.size, l.align)])
  {
    hide BitAnd, RoundUp, Place, Aligned, IsPow2;
    Mmap.OsCommitExact(a.region, p.off, l.size, true);
    assert a.region.(committed := a.region.len) == a.region;
  }

  lemma ServeNext(a: BumpArenas.Arena, base: usize, capacity: usize, log: seq<Entry>, n: nat)
    requires SequentialRun(base, capacity, log) && n < |log|
    requires ServedPrefix(a, base, capacity, log, n)
    ensures ServedPrefix(BumpArenas.Apply(a, BumpArenas.Alloc(log[n].l, true)), base, capacity, log, n + 1)
  {
    hide BitAnd, RoundUp, Place, BumpArenas.Inv, BumpArenas.Apply;
    var l, p := log[n].l, log[n].p;
    assert Place(base, CursorAfter(log[..n]), capacity, l) == Some(p);
    ServeOne(a, l, p);
    assert log[..n + 1][..n] == log[..n] && log[..n + 1][n] == log[n];
    assert Blocks(log[..n + 1]) == Blocks(log[..n]) + [BumpArenas.Block(p.off, l.size, l.align)];
  }

  /** The successful compare-and-swaps, in order, are a run of `BumpArena::allocate` on the
      same range: same blocks at the same addresses, same final cursor. */
  lemma {:induction false} LogIsArenaRun(a: BumpArenas.Arena, base: usize, capacity: usize,
                                         log: seq<Entry>, n: nat)
    requires SequentialRun(base, capacity, log)
    requires ServedPrefix(a, base, capacity, log, n)
    ensures BumpArenas.Allowed(a, Requests(log[n..]))
    ensures var r := BumpArenas.Run(a, Requests(log[n..]));
            r.cursor == CursorAfter(log) && r.live == Blocks(log)
    decreases |log| - n
  {
    if n == |log| {
      assert log[..n] == log;
    } else {
      ServeNext(a, base, capacity, log, n);
      assert Requests(log[n..])[0] == BumpArenas.Alloc(log[n].l, true);
      assert Requests(log[n..])[1..] == Requests(log[n + 1..]);
      LogIsArenaRun(BumpArenas.Apply(a, BumpArenas.Alloc(log[n].l, true)), base, capacity, log, n + 1);
    }
  }

  /** Linearizability against the sequential arena, for every run: take any empty,
      committed `BumpArena` over the same range; serving the logged requests in order
      leaves it with exactly the issued blocks and the shared cursor. */
  lemma RunRefinesBumpArena(states: seq<State>, steps: seq<Step>, n: nat, a: BumpArenas.Arena)
    requires IsRun(states, steps) && n <= |steps|
    requires BumpArenas.Inv(a) && a.cursor == 0 && a.live == []
    requires a.region.base == states[n].base
    requires a.region.len == a.region.committed == states[n].capacity
    ensures BumpArenas.Allowed(a, Requests(states[n].log))
    ensures var r := BumpArenas.Run(a, Requests(states[n].log));
            r.cursor == states[n].cursor && r.live == Blocks(states[n].log)
  {
    RunKeepsInv(states, steps, n);
    var s := states[n];
    assert s.log[..0] == [] && s.log[0..] == s.log;
    LogIsArenaRun(a, s.base, s.capacity, s.log, 0);
  }

  // ------------------------------------------------------------ regions that wrap

  lemma {:induction false} RangeIsFixed(states: seq<State>, steps: seq<Step>, n: nat)
    requires IsRun(states, steps) && n <= |steps|
    ensures states[n].base == states[0].base && states[n].capacity == states[0].capacity
  {
    hide Place;
    if n > 0 { RangeIsFixed(states, steps, n - 1); }
  }

  /** Step `i` returns an error for a request that would fit over the integers behind
      everything issued so far. */
  ghost predicate WronglyRefused(states: seq<State>, steps: seq<Step>, i: nat)
    requires |states| == |steps| + 1
  {
    && i < |steps| && steps[i].Fail? && PcOf(states[i], steps[i].t).Trying?
    && var s, l := states[i], PcOf(states[i], steps[i].t).l;
       RoundUp(s.base + s.cursor, l.align) + l.size <= s.base + s.capacity
  }

  ghost predicate CanRefuseWrongly(base: usize, capacity: usize) {
    exists states: seq<State>, steps: seq<Step>, i: nat ::
      && IsRun(states, steps) && states[0].base == base && states[0].capacity == capacity
      && WronglyRefused(states, steps, i)
  }

  lemma Extend(states: seq<State>, steps: seq<Step>, step: Step) returns (r: seq<State>)
    requires IsRun(states, steps) && Enabled(states[|steps|], step)
    ensures IsRun(r, steps + [step]) && r == states + [Next(states[|steps|], step)]
  {
    hide Next, Enabled, Init;
    r := states + [Next(states[|steps|], step)];
  }

  /** One whole call by thread 0, granted at once. */
  lemma Granted(states: seq<State>, steps: seq<Step>, size: nat) returns (r: seq<State>, taken: seq<Step>)
    requires IsRun(states, steps) && PcOf(states[|steps|], 0).Idle?
    requires 0 < size <= ISIZE_MAX
    requires var s := states[|steps|]; s.base + s.cursor <= USIZE_MAX && s.cursor + size <= s.capacity
    ensures IsRun(r, taken) && PcOf(r[|taken|], 0).Idle? && r[0] == states[0]
    ensures r[|taken|].cursor == states[|steps|].cursor + size
  {
    hide Place, RoundUp;
    var s, l := states[|steps|], Layout(size, 1);
    PlaceExact(s.base, s.cursor, s.capacity, l);
    RoundUpBounds(s.base + s.cursor, 1);
    r := Extend(states, steps, Load(0, l));
    r := Extend(r, steps + [Load(0, l)], CasWins(0));
    taken := steps + [Load(0, l)] + [CasWins(0)];
  }

  /** Any cursor up to the capacity and the top of the address space is reached. */
  lemma Filled(base: usize, capacity: usize, n: nat) returns (states: seq<State>, steps: seq<Step>)
    requires 0 < capacity && n <= capacity && base + n <= USIZE_MAX + 1
    ensures IsRun(states, steps) && states[0].base == base && states[0].capacity == capacity
    ensures states[|steps|].cursor == n && PcOf(states[|steps|], 0).Idle?
  {
    if n == 0 {
      states, steps := [State(base, capacity, 0, map[], [], [])], [];
    } else {
      var size := Min(n, ISIZE_MAX);
      states, steps := Filled(base, capacity, n - size);
      RangeIsFixed(states, steps, |steps|);
      states, steps := Granted(states, steps, size);
    }
  }

  /** `SharedBumpArena::new` does not repeat `BumpArena::new`'s wrap check. Some run turns
      down a request that would fit over the integers if and only if the region wraps past
      the top of the address space; one that ends exactly there never does. */
  lemma WrongRefusalIff(base: usize, capacity: usize)
    requires 0 < capacity
    ensures CanRefuseWrongly(base, capacity) <==> base + capacity > USIZE_MAX + 1
  {
    hide RoundUp, Place, Next, Enabled, Init;
    if base + capacity > USIZE_MAX + 1 {
      WrongRefusalRun(base, capacity);
    }
    if CanRefuseWrongly(base, capacity) {
      var states: seq<State>, steps: seq<Step>, i: nat :|
        && IsRun(states, steps) && states[0].base == base && states[0].capacity == capacity
        && WronglyRefused(states, steps, i);
      RangeIsFixed(states, steps, i);
      RunKeepsInv(states, steps, i);
      FailKeepsInv(states[i], steps[i].t);
      SpuriousOverflowIffWrapping(base, capacity);
    }
  }

  /** Fill the arena up to the top of the address space, then ask for one byte. */
  lemma WrongRefusalRun(base: usize, capacity: usize)
    requires 0 < capacity && base + capacity > USIZE_MAX + 1
    ensures CanRefuseWrongly(base, capacity)
  {
    hide RoundUp, Place;
    var n, l := USIZE_MAX + 1 - base, Layout(1, 1);
    var states, steps := Filled(base, capacity, n);
    RangeIsFixed(states, steps, |steps|);
    PlaceExact(base, n, capacity, l);
    RoundUpBounds(base + n, 1);
    states := Extend(states, steps, Load(0, l));
    states := Extend(states, steps + [Load(0, l)], Fail(0));
    assert WronglyRefused(states, steps + [Load(0, l)] + [Fail(0)], |steps| + 1);
  }

  // ------------------------------------------------------------ the loop itself

  /** The arena with its one atomic cell. `machine` is the state machine the cell is part
      of, other threads included; `states` and `steps` are the run that led to it. */
  class SharedBumpArena {
    const base: usize
    const capacity: usize
    var cursor: usize
    var machine: State
    ghost var states: seq<State>
    ghost var steps: seq<Step>

    ghost predicate Follows()
      reads this
    {
      && IsRun(states, steps) && machine == states[|steps|]
      && machine.base == base && machine.capacity == capacity
    }

    ghost predicate Mirrors()
      reads this
    {
      Follows() && machine.cursor == cursor
    }

    constructor (base: usize, capacity: usize)
      requires capacity > 0
      ensures Mirrors() && this.base == base && this.capacity == capacity
      ensures cursor == 0 && steps == []
    {
      this.base, this.capacity, cursor := base, capacity, 0;
      machine := State(base, capacity, 0, map[], [], []);
      states, steps := [State(base, capacity, 0, map[], [], [])], [];
    }

    /** The machine's side of one access. */
    method Take(step: Step)
      requires Follows() && Enabled(machine, step)
      modifies this`machine, this`states, this`steps
      ensures Follows() && machine == Next(old(machine), step)
      ensures states == old(states) + [machine] && steps == old(steps) + [step]
      ensures old(machine.cursor) <= machine.cursor && old(machine.log) <= machine.log
    {
      hide Next, Enabled, Init, Inv;
      ghost var run := Extend(states, steps, step);
      RunKeepsInv(states, steps, |steps|);
      NextKeepsInv(machine, step);
      StepKeepsRange(machine, step);
      machine := Next(machine, step);
      states, steps := run, steps + [step];
    }

    /** What the other threads do between two of `t`'s accesses: any steps of theirs, in
        any order; those that are not enabled when their turn comes do not happen. */
    method Interfere(t: Tid, theirs: seq<Step>)
      requires Mirrors()
      modifies this
      ensures Mirrors() && PcOf(machine, t) == old(PcOf(machine, t))
      ensures old(states) <= states && old(steps) <= steps
      ensures old(cursor) <= cursor && old(machine.log) <= machine.log
    {
      hide Next, Enabled, Init;
      for i := 0 to |theirs|
        invariant Mirrors() && PcOf(machine, t) == old(PcOf(machine, t))
        invariant old(states) <= states && old(steps) <= steps
        invariant old(cursor) <= cursor && old(machine.log) <= machine.log
      {
        if theirs[i].t != t && Enabled(machine, theirs[i]) {
          OthersStep(machine, theirs[i], t);
          Take(theirs[i]);
          cursor := machine.cursor;
        }
      }
    }

    /** `AtomicUsize::load`, the first access of a call. */
    method Load(t: Tid, l: NonZeroLayout) returns (cur: usize)
      requires Mirrors() && PcOf(machine, t).Idle?
      modifies this
      ensures Mirrors() && cur == cursor == old(cursor)
      ensures PcOf(machine, t) == Trying(l, cur, |machine.log|, cur, 0) && machine.log == old(machine.log)
      ensures states == old(states) + [machine] && steps == old(steps) + [Step.Load(t, l)]
    {
      hide Place;
      cur := cursor;
      Take(Step.Load(t, l));
    }

    /** `compare_exchange_weak`: publishes `end` only if the cell still holds `cur`, and may
        fail `spuriously` even then. `seen` is the value it found. */
    method CompareExchangeWeak(t: Tid, cur: usize, end: usize, spuriously: bool) returns (won: bool, seen: usize)
      requires Mirrors() && PcOf(machine, t).Trying? && PcOf(machine, t).cur == cur
      requires Place(base, cur, capacity, PcOf(machine, t).l).Some?
      requires Place(base, cur, capacity, PcOf(machine, t).l).value.end == end
      modifies this
      ensures Mirrors() && seen == old(cursor) && won == (old(cursor) == cur && !spuriously)
      ensures cursor == if won then end else old(cursor)
      ensures var pc := old(PcOf(machine, t));
              var p := Place(base, cur, capacity, pc.l).value;
              if won then
                && PcOf(machine, t).Idle? && machine.log == old(machine.log) + [Entry(t, pc.l, p)]
                && machine.answers == old(machine.answers) +
                   [Answer(t, pc.l, Some(|old(machine.log)|), pc.startLog, |machine.log|)]
                && old(cursor) <= p.off && end == p.off + pc.l.size <= capacity && Aligned(base + p.off, pc.l.align)
                && forall k :: 0 <= k < |old(machine.log)| ==> machine.log[k].p.end <= p.off
              else
                && PcOf(machine, t) == pc.(cur := seen, retries := pc.retries + (if seen == cur then 0 else 1))
                && machine.log == old(machine.log)
      ensures old(states) <= states && old(steps) <= steps
    {
      hide Place, IsRun, Inv, Aligned;
      seen := cursor;
      if seen == cur && !spuriously {
        InFlightNow(states, steps, t);
        WinAnswers(machine, t);
        cursor := end;
        Take(CasWins(t));
        return true, seen;
      }
      Take(if seen == cur then CasSpurious(t) else CasLoses(t));
      return false, seen;
    }

    /** The error return. */
    method GiveUp(t: Tid)
      requires Mirrors() && PcOf(machine, t).Trying?
      requires Place(base, PcOf(machine, t).cur, capacity, PcOf(machine, t).l) == None
      modifies this
      ensures Mirrors() && cursor == old(cursor) && machine.log == old(machine.log)
      ensures var pc := old(PcOf(machine, t));
              && PcOf(machine, t).Idle? && Place(base, cursor, capacity, pc.l) == None
              && machine.answers == old(machine.answers) + [Answer(t, pc.l, None, pc.startLog, |machine.log|)]
      ensures old(states) <= states && old(steps) <= steps
    {
      hide Place, IsRun, Inv;
      InFlightNow(states, steps, t);
      FailAnswers(machine, t);
      Take(Fail(t));
    }

    /** `allocate` by thread `t`. Before the `k`-th access to the cell the other threads take
        the steps `theirs(k)`, and the `k`-th compare-and-swap may fail spuriously. A block
        starts at or past the end of every block published by the time it is; the run so
        far is a run of the state machine, so all that is proved of runs holds of it. */
    method Allocate(t: Tid, l: NonZeroLayout, theirs: nat -> seq<Step>, spurious: seq<bool>)
      returns (r: Option<Placement>, ghost lost: nat)
      requires Mirrors() && PcOf(machine, t).Idle?
      modifies this
      ensures Mirrors() && PcOf(machine, t).Idle?
      ensures old(states) <= states && old(steps) <= steps && old(machine.log) <= machine.log
      ensures var n := |machine.log|;
              && (r.Some? ==>
                    && n > |old(machine.log)| && machine.log[n - 1] == Entry(t, l, r.value)
                    && cursor == r.value.end == r.value.off + l.size <= capacity
                    && old(cursor) <= r.value.off && Aligned(base + r.value.off, l.align)
                    && forall k :: 0 <= k < n - 1 ==> machine.log[k].p.end <= r.value.off)
              && (r == None ==> Place(base, cursor, capacity, l) == None)
      ensures var n, last := |machine.log|, |machine.answers| - 1;
              && last >= 0
              && machine.answers[last] ==
                 Answer(t, l, if r.Some? then Some(n - 1) else None, machine.answers[last].startLog, n)
              && |old(machine.log)| <= machine.answers[last].startLog
      ensures lost <= cursor - old(cursor) <= capacity && lost <= |machine.log| - |old(machine.log)|
    {
      hide Place, Aligned, Next, Enabled, IsRun, Inv, PcOf, Attempt;
      Interfere(t, theirs(0));
      var cur := Load(t, l);
      ghost var start := |machine.log|;
      var attempt: nat := 0;
      while true
        invariant Mirrors() && PcOf(machine, t).Trying? && PcOf(machine, t).l == l && PcOf(machine, t).cur == cur
        invariant old(states) <= states && old(steps) <= steps && old(machine.log) <= machine.log
        invariant |old(machine.log)| <= start == PcOf(machine, t).startLog
        invariant old(cursor) <= PcOf(machine, t).startCur
        decreases capacity - cur, |spurious| - attempt
      {
        InFlightNow(states, steps, t);
        r := Place(base, cur, capacity, l);
        lost := PcOf(machine, t).retries;
        if r == None {
          GiveUp(t);
          return;
        }
        Interfere(t, theirs(attempt + 1));
        InFlightNow(states, steps, t);
        var won, seen := CompareExchangeWeak(t, cur, r.value.end, attempt < |spurious| && spurious[attempt]);
        if won {
          return;
        }
        cur := seen;
        attempt := attempt + 1;
      }
    }
  }

  lemma StepKeepsRange(s: State, step: Step)
    requires Enabled(s, step)
    ensures Next(s, step).base == s.base && Next(s, step).capacity == s.capacity
  {
    hide Place;
  }

  lemma OthersStep(s: State, step: Step, t: Tid)
    requires Enabled(s, step) && step.t != t
    ensures PcOf(Next(s, step), t) == PcOf(s, t)
  {
    hide Place;
  }

  lemma InFlightNow(states: seq<State>, steps: seq<Step>, t: Tid)
    requires IsRun(states, steps) && PcOf(states[|steps|], t).Trying?
    ensures var s, pc := states[|steps|], PcOf(states[|steps|], t);
            && Inv(s) && pc.startCur <= pc.cur <= s.cursor <= s.capacity && pc.startLog <= |s.log|
            && pc.retries <= pc.cur - pc.startCur && pc.retries <= |s.log| - pc.startLog
  {
    hide Next, Enabled, Init;
    RunKeepsInv(states, steps, |steps|);
    KnownThread(states[|steps|], t);
  }

  /** What the error return leaves behind. */
  lemma FailAnswers(s: State, t: Tid)
    requires Inv(s) && PcOf(s, t).Trying? && Attempt(s, t) == None
    ensures var r, pc := Next(s, Fail(t)), PcOf(s, t);
            && PcOf(r, t).Idle? && r.log == s.log && r.cursor == s.cursor
            && r.answers == s.answers + [Answer(t, pc.l, None, pc.startLog, |s.log|)]
            && Place(s.base, s.cursor, s.capacity, pc.l) == None
  {
    hide Place;
    FailKeepsInv(s, t);
  }

  /** What a successful compare-and-swap leaves behind. */
  lemma WinAnswers(s: State, t: Tid)
    requires Inv(s) && PcOf(s, t).Trying? && Attempt(s, t).Some? && s.cursor == PcOf(s, t).cur
    ensures var r, pc, p := Next(s, CasWins(t)), PcOf(s, t), Attempt(s, t).value;
            && PcOf(r, t).Idle? && r.cursor == p.end == p.off + pc.l.size <= s.capacity
            && r.log == s.log + [Entry(t, pc.l, p)]
            && r.answers == s.answers + [Answer(t, pc.l, Some(|s.log|), pc.startLog, |s.log| + 1)]
            && s.cursor <= p.off && Aligned(s.base + p.off, pc.l.align)
            && forall k :: 0 <= k < |s.log| ==> s.log[k].p.end <= p.off
  {
    hide Place, Aligned;
    PlaceIsSound(s.base, s.cursor, s.capacity, PcOf(s, t).l);
    forall k | 0 <= k < |s.log|
      ensures s.log[k].p.end <= s.cursor
    {
      if k < |s.log| - 1 {
        SequentialRunOrdered(s.base, s.capacity, s.log, k, |s.log| - 1);
        EntrySound(s, |s.log| - 1);
        EntryForward(s, |s.log| - 1);
      }
    }
  }

  lemma EntryForward(s: State, k: nat)
    requires SequentialRun(s.base, s.capacity, s.log) && k < |s.log|
    ensures s.log[k].p.off <= s.log[k].p.end
  {
    hide Place;
  }
}
