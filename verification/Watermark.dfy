/** `Watermark`: thresholds on live bytes, watched by any number of threads. First the
    arithmetic of the precomputed gate, then every atomic access as one step. */
module Watermark {
  import opened Words
  import opened Sums

  type u8 = x: int | 0 <= x <= 255

  // ------------------------------------------------------------ thresholds and the gate

  datatype Level = Warn | Critical | Oom

  datatype Thresholds = Thresholds(warn: u8, critical: u8)

  /** `with_thresholds`: the byte count below which `check_and_fire` is not called.
      `capacity` is `usize::MAX` when the inner allocator is unbounded. */
  function Gate(capacity: usize, th: Thresholds): usize {
    if capacity == USIZE_MAX then USIZE_MAX
    else
      var pct := Min(Min(th.warn, 100), Min(th.critical, 100));
      GateFits(capacity, pct);
      capacity * pct / 100
  }

  /** The gate of a bounded inner is the lower threshold, capped at 100, rounded down. */
  lemma GateIsFloor(capacity: usize, th: Thresholds)
    requires capacity < USIZE_MAX
    ensures var p := Min(100, Min(th.warn, th.critical));
            100 * Gate(capacity, th) <= p * capacity < 100 * Gate(capacity, th) + 100
  {
    var pct := Min(Min(th.warn, 100), Min(th.critical, 100));
    assert capacity * pct == pct * capacity;
  }

  lemma GateFits(capacity: usize, pct: int)
    requires 0 <= pct <= 100
    ensures 0 <= capacity * pct <= capacity * 100
  {
  }

  /** The saturated percentage `check_and_fire` compares with the thresholds. */
  function Percent(bytes: nat, capacity: nat): u8
    requires capacity > 0
  {
    Min(bytes * 100 / capacity, 255)
  }

  predicate Reaches(bytes: nat, capacity: nat, pct: u8) {
    capacity > 0 && Percent(bytes, capacity) >= pct
  }

  /** The level a byte count reaches; critical has priority. */
  function LevelAt(bytes: nat, capacity: nat, th: Thresholds): Option<Level> {
    if Reaches(bytes, capacity, th.critical) then Some(Critical)
    else if Reaches(bytes, capacity, th.warn) then Some(Warn)
    else None
  }

  lemma QuotientAtLeast(a: nat, c: nat, p: nat)
    requires c > 0
    ensures a / c >= p <==> a >= p * c
  {
    var q, r := a / c, a % c;
    assert a == c * q + r;
    if q >= p {
      MulMonotone(c, p, q);
      assert p * c == c * p;
    } else {
      MulMonotone(c, q + 1, p);
      assert c * (q + 1) == c * q + c && p * c == c * p;
    }
  }

  lemma ReachesExact(bytes: nat, capacity: nat, pct: u8)
    requires capacity > 0
    ensures Reaches(bytes, capacity, pct) <==> bytes * 100 >= pct * capacity
  {
    QuotientAtLeast(bytes * 100, capacity, pct);
  }

  lemma ReachesMonotone(bytes: nat, more: nat, capacity: nat, pct: u8)
    requires bytes <= more && Reaches(bytes, capacity, pct)
    ensures Reaches(more, capacity, pct)
  {
    ReachesExact(bytes, capacity, pct);
    ReachesExact(more, capacity, pct);
  }

  /** A growing capacity makes a threshold harder to reach. */
  lemma ReachesSmaller(bytes: nat, smaller: nat, capacity: nat, pct: u8)
    requires 0 < smaller <= capacity && Reaches(bytes, capacity, pct)
    ensures Reaches(bytes, smaller, pct)
  {
    ReachesExact(bytes, smaller, pct);
    ReachesExact(bytes, capacity, pct);
    MulMonotone(pct, smaller, capacity);
  }

  ghost predicate AnyCrossing(bytes: nat, capacity: nat, th: Thresholds) {
    Reaches(bytes, capacity, th.warn) || Reaches(bytes, capacity, th.critical)
  }

  lemma LevelMeans(bytes: nat, capacity: nat, th: Thresholds)
    ensures var level := LevelAt(bytes, capacity, th);
            level == None || level == Some(Warn) || level == Some(Critical)
    ensures LevelAt(bytes, capacity, th) == Some(Critical) <==> Reaches(bytes, capacity, th.critical)
    ensures LevelAt(bytes, capacity, th) == None <==> !AnyCrossing(bytes, capacity, th)
  {
    hide Reaches;
  }

  /** Exactly when the gate is safe for a live capacity: the fewest bytes that reach the
      lower threshold must already pass the gate. */
  lemma GateExact(constructed: usize, live: nat, th: Thresholds)
    requires live > 0
    ensures (forall bytes: nat :: AnyCrossing(bytes, live, th) ==> bytes >= Gate(constructed, th)) <==>
            (Min(th.warn, th.critical) * live + 99) / 100 >= Gate(constructed, th)
  {
    var p := Min(th.warn, th.critical);
    var least := (p * live + 99) / 100;
    forall bytes: nat
      ensures AnyCrossing(bytes, live, th) <==> bytes >= least
    {
      ReachesExact(bytes, live, th.warn);
      ReachesExact(bytes, live, th.critical);
      LowerThreshold(bytes, live, th);
    }
    assert AnyCrossing(least, live, th);
  }

  lemma LowerThreshold(bytes: nat, live: nat, th: Thresholds)
    ensures (bytes * 100 >= th.warn * live || bytes * 100 >= th.critical * live) <==>
            bytes * 100 >= Min(th.warn, th.critical) * live
  {
    if th.warn <= th.critical {
      MulMonotone(live, th.warn, th.critical);
    } else {
      MulMonotone(live, th.critical, th.warn);
    }
  }

  /** The documented case: a bounded capacity at construction and a live capacity no
      smaller (a growing inner). Whatever the thresholds, inverted or above 100 included,
      the gate suppresses no crossing. */
  lemma GateNeverSuppresses(constructed: usize, live: nat, th: Thresholds, bytes: nat)
    requires constructed < USIZE_MAX && constructed <= live
    requires AnyCrossing(bytes, live, th)
    ensures bytes >= Gate(constructed, th)
  {
    var p, q := Min(th.warn, th.critical), Min(Min(th.warn, 100), Min(th.critical, 100));
    ReachesExact(bytes, live, th.warn);
    ReachesExact(bytes, live, th.critical);
    LowerThreshold(bytes, live, th);
    MulMonotone(live, q, p);
    MulMonotone(q, constructed, live);
    assert constructed * q <= bytes * 100;
  }

  /** The gate does miss crossings outside that case: for an inner that reports no bound,
      and for one whose capacity has shrunk below the constructed one. */
  lemma GateCanSuppress()
    ensures var th := Thresholds(75, 90);
            && Reaches(USIZE_MAX - 1, USIZE_MAX, th.critical) && USIZE_MAX - 1 < Gate(USIZE_MAX, th)
            && Reaches(50, 50, th.critical) && 50 < Gate(100, th)
  {
    ReachesExact(USIZE_MAX - 1, USIZE_MAX, 90);
    ReachesExact(50, 50, 90);
  }

  // ------------------------------------------------------------ the protocol

  type Tid = nat

  datatype Holder = Client | InCall(t: Tid) | Gone

  /** A block of the inner allocator; `counted` while its bytes are in `allocated`. */
  datatype Block = Block(size: nat, holder: Holder, counted: bool)

  datatype Pc =
    | Idle
    | Adding(id: nat)
    | Checking(id: nat, new_: nat)
    | Marking(id: nat, new_: nat, cap: usize)
    | RunCritical(id: nat, new_: nat)
    | RunWarn(id: nat, new_: nat)
    | RunOom
    | Freeing(id: nat)

  /** The `fired` bitmap. */
  datatype Fired = Fired(warn: bool, critical: bool)

  datatype Win = Win(t: Tid, level: Level)

  /** `constructed` is the capacity the gate was computed from, `capacity` the one the inner
      reports now. `wins` (the threads whose `fetch_or` saw its bit clear), `calls` (handler
      calls that have run), `peak` and `adds` are history. */
  datatype State = State(th: Thresholds, constructed: usize, capacity: usize, allocatedBytes: usize,
                         fired: Fired, blocks: seq<Block>, threads: map<Tid, Pc>,
                         wins: seq<Win>, calls: seq<Level>, peak: nat, adds: nat)

  datatype Step =
    | InnerOk(t: Tid, size: nat)
    | InnerErr(t: Tid)
    | StartFree(t: Tid, id: nat)
    | Rearm
    | Regrow(capacity: usize)
    | Advance(t: Tid)

  function PcOf(s: State, t: Tid): Pc {
    if t in s.threads then s.threads[t] else Idle
  }

  function Held(pc: Pc): Option<nat> {
    if pc.Idle? || pc.RunOom? then None else Some(pc.id)
  }

  function CountedBytes(b: Block): nat { if b.counted then b.size else 0 }

  function LiveBytes(b: Block): nat { if b.holder.Gone? then 0 else b.size }

  ghost predicate Init(s: State) {
    && s.capacity == s.constructed
    && s.allocatedBytes == 0 && s.fired == Fired(false, false)
    && s.blocks == [] && s.threads == map[]
    && s.wins == [] && s.calls == [] && s.peak == 0 && s.adds == 0
  }

  predicate Enabled(s: State, step: Step) {
    match step
    case InnerOk(t, size) =>
      PcOf(s, t).Idle? && 0 < size <= ISIZE_MAX && Sum(s.blocks, LiveBytes) + size <= USIZE_MAX
    case InnerErr(t) => PcOf(s, t).Idle?
    case StartFree(t, id) => PcOf(s, t).Idle? && id < |s.blocks| && s.blocks[id].holder.Client?
    case Rearm => true
    case Regrow(capacity) => s.constructed <= capacity
    case Advance(t) =>
      && !PcOf(s, t).Idle?
      && (Held(PcOf(s, t)).Some? ==> Held(PcOf(s, t)).value < |s.blocks|)
  }

  function Goto(s: State, t: Tid, pc: Pc): State {
    s.(threads := s.threads[t := pc])
  }

  function SetBlock(s: State, id: nat, b: Block): State
    requires id < |s.blocks|
  {
    s.(blocks := s.blocks[id := b])
  }

  /** `allocate` returns: the client holds the block. */
  function Return(s: State, t: Tid, id: nat): State
    requires id < |s.blocks|
  {
    Goto(SetBlock(s, id, s.blocks[id].(holder := Client)), t, Idle)
  }

  function Next(s: State, step: Step): State
    requires Enabled(s, step)
  {
    match step
    case InnerOk(t, size) =>
      Goto(s.(blocks := s.blocks + [Block(size, InCall(t), false)]), t, Adding(|s.blocks|))
    case InnerErr(t) => Goto(s, t, RunOom)
    case StartFree(t, id) =>
      var b := s.blocks[id].(holder := InCall(t), counted := false);
      Goto(SetBlock(s, id, b), t, Freeing(id))
        .(allocatedBytes := (s.allocatedBytes - s.blocks[id].size) % (USIZE_MAX + 1))
    case Rearm => s.(fired := Fired(false, false))
    case Regrow(capacity) => s.(capacity := capacity)
    case Advance(t) => NextOf(s, t, PcOf(s, t))
  }

  function NextOf(s: State, t: Tid, pc: Pc): State
    requires !pc.Idle? && (Held(pc).Some? ==> Held(pc).value < |s.blocks|)
  {
    match pc
    case Adding(id) =>
      var size := s.blocks[id].size;
      var after := (s.allocatedBytes + size) % (USIZE_MAX + 1);
      var local := Min(s.allocatedBytes + size, USIZE_MAX);
      var added := SetBlock(s, id, s.blocks[id].(counted := true))
        .(allocatedBytes := after, peak := Max(s.peak, after), adds := s.adds + 1);
      if local >= Gate(s.constructed, s.th) then Goto(added, t, Checking(id, local)) else Return(added, t, id)
    case Checking(id, new_) =>
      if LevelAt(new_, s.capacity, s.th) == None then Return(s, t, id)
      else Goto(s, t, Marking(id, new_, s.capacity))
    case Marking(id, new_, cap) =>
      var level := LevelAt(new_, cap, s.th);
      if level == Some(Critical) then
        var or := s.(fired := Fired(true, true));
        if s.fired.critical then Return(or, t, id)
        else Goto(or, t, RunCritical(id, new_)).(wins := s.wins + [Win(t, Critical)])
      else if level == Some(Warn) then
        var or := s.(fired := s.fired.(warn := true));
        if s.fired.warn then Return(or, t, id)
        else Goto(or, t, RunWarn(id, new_)).(wins := s.wins + [Win(t, Warn)])
      else Return(s, t, id)
    case RunCritical(id, _) => Return(s, t, id).(calls := s.calls + [Critical])
    case RunWarn(id, _) => Return(s, t, id).(calls := s.calls + [Warn])
    case RunOom => Goto(s, t, Idle).(calls := s.calls + [Oom])
    case Freeing(id) => Goto(SetBlock(s, id, s.blocks[id].(holder := Gone)), t, Idle)
  }

  // ------------------------------------------------------------ accounting

  ghost predicate HoldsWell(s: State, t: Tid) {
    Held(PcOf(s, t)).Some? ==>
      var id := Held(PcOf(s, t)).value;
      && id < |s.blocks| && s.blocks[id].holder == InCall(t)
      && (s.blocks[id].counted <==> !PcOf(s, t).Adding? && !PcOf(s, t).Freeing?)
  }

  ghost predicate BlockWell(b: Block) {
    (b.holder.Client? ==> b.counted) && (b.holder.Gone? ==> !b.counted)
  }

  ghost predicate Accounting(s: State) {
    && (forall t :: t in s.threads ==> HoldsWell(s, t))
    && (forall id :: 0 <= id < |s.blocks| ==> BlockWell(s.blocks[id]))
    && s.allocatedBytes == Sum(s.blocks, CountedBytes) <= s.peak
    && Sum(s.blocks, LiveBytes) <= USIZE_MAX
  }

  lemma CountedIsLive(blocks: seq<Block>)
    requires forall id :: 0 <= id < |blocks| ==> BlockWell(blocks[id])
    ensures Sum(blocks, CountedBytes) <= Sum(blocks, LiveBytes)
  {
    forall i | 0 <= i < |blocks|
      ensures CountedBytes(blocks[i]) <= LiveBytes(blocks[i])
    {
      assert BlockWell(blocks[i]);
    }
    SumLe(blocks, CountedBytes, LiveBytes);
  }

  /** Replacing one block that is with `t` or with the client, together with `t`'s program
      point, disturbs nothing else. */
  lemma AccountingFrame(s: State, r: State, t: Tid, id: nat)
    requires Accounting(s) && id < |s.blocks| && |r.blocks| == |s.blocks|
    requires r.threads == s.threads[t := PcOf(r, t)] && r.blocks == s.blocks[id := r.blocks[id]]
    requires s.blocks[id].holder == InCall(t) || s.blocks[id].holder.Client?
    requires r.blocks[id].size == s.blocks[id].size
    requires HoldsWell(r, t) && BlockWell(r.blocks[id])
    ensures forall u :: u in r.threads ==> HoldsWell(r, u)
    ensures forall k :: 0 <= k < |r.blocks| ==> BlockWell(r.blocks[k])
    ensures Sum(r.blocks, CountedBytes) ==
            Sum(s.blocks, CountedBytes) - CountedBytes(s.blocks[id]) + CountedBytes(r.blocks[id])
    ensures Sum(r.blocks, LiveBytes) ==
            Sum(s.blocks, LiveBytes) - LiveBytes(s.blocks[id]) + LiveBytes(r.blocks[id])
    ensures Sum(r.blocks, CountedBytes) <= Sum(r.blocks, LiveBytes)
    ensures CountedBytes(s.blocks[id]) <= Sum(s.blocks, CountedBytes)
  {
    hide Sum;
    forall u | u in r.threads
      ensures HoldsWell(r, u)
    {
      if u != t { assert HoldsWell(s, u); }
    }
    forall k | 0 <= k < |r.blocks|
      ensures BlockWell(r.blocks[k])
    {
      if k != id { assert BlockWell(s.blocks[k]); }
    }
    SumUpdate(s.blocks, CountedBytes, id, r.blocks[id]);
    SumUpdate(s.blocks, LiveBytes, id, r.blocks[id]);
    CountedIsLive(r.blocks);
  }

  lemma WordExact(x: usize, n: nat)
    ensures x + n <= USIZE_MAX ==> (x + n) % (USIZE_MAX + 1) == x + n
    ensures n <= x ==> (x - n) % (USIZE_MAX + 1) == x - n
  {
  }

  lemma AccountingAdd(s: State, t: Tid, id: nat)
    requires Accounting(s) && Enabled(s, Advance(t)) && PcOf(s, t) == Adding(id)
    ensures Accounting(NextOf(s, t, Adding(id)))
    ensures NextOf(s, t, Adding(id)).allocatedBytes == s.allocatedBytes + s.blocks[id].size
  {
    hide Sum, Gate, Reaches, LevelAt;
    var r := NextOf(s, t, Adding(id));
    assert HoldsWell(s, t);
    assert BlockWell(s.blocks[id]);
    AccountingFrame(s, r, t, id);
    WordExact(s.allocatedBytes, s.blocks[id].size);
  }

  /** The steps that leave the counter alone move a block at most to another holder. */
  lemma AccountingMove(s: State, r: State, t: Tid, id: nat)
    requires Accounting(s) && id < |s.blocks| && |r.blocks| == |s.blocks|
    requires r.threads == s.threads[t := PcOf(r, t)] && r.blocks == s.blocks[id := r.blocks[id]]
    requires s.blocks[id].holder == InCall(t)
    requires r.blocks[id] == s.blocks[id].(holder := r.blocks[id].holder)
    requires HoldsWell(r, t) && BlockWell(r.blocks[id])
    requires r.allocatedBytes == s.allocatedBytes && r.peak == s.peak
    ensures Accounting(r)
  {
    hide Sum;
    AccountingFrame(s, r, t, id);
  }

  lemma AccountingAdvance(s: State, t: Tid, pc: Pc)
    requires Accounting(s) && Enabled(s, Advance(t)) && pc == PcOf(s, t)
    ensures Accounting(NextOf(s, t, pc))
    ensures pc.Adding? ==> NextOf(s, t, pc).allocatedBytes == s.allocatedBytes + s.blocks[pc.id].size
  {
    hide Sum, Gate, Reaches, LevelAt;
    if pc.Adding? {
      AccountingAdd(s, t, pc.id);
    } else if pc.RunOom? {
      var r := NextOf(s, t, pc);
      forall u | u in r.threads
        ensures HoldsWell(r, u)
      {
        if u != t { assert HoldsWell(s, u); }
      }
    } else {
      assert HoldsWell(s, t);
      assert BlockWell(s.blocks[pc.id]);
      AccountingMove(s, NextOf(s, t, pc), t, pc.id);
    }
  }

  lemma AccountingStep(s: State, step: Step)
    requires Accounting(s) && Enabled(s, step)
    ensures Accounting(Next(s, step))
    ensures step.Advance? && PcOf(s, step.t).Adding? ==>
              Next(s, step).allocatedBytes == s.allocatedBytes + s.blocks[PcOf(s, step.t).id].size
  {
    hide Sum, Gate, Reaches, LevelAt, NextOf;
    var r := Next(s, step);
    match step
    case InnerOk(t, size) =>
      SumAppend(s.blocks, CountedBytes, Block(size, InCall(t), false));
      SumAppend(s.blocks, LiveBytes, Block(size, InCall(t), false));
      forall u | u in r.threads
        ensures HoldsWell(r, u)
      {
        if u != t { assert HoldsWell(s, u); }
      }
    case StartFree(t, id) =>
      assert BlockWell(s.blocks[id]);
      AccountingFrame(s, r, t, id);
      WordExact(s.allocatedBytes, s.blocks[id].size);
    case Advance(t) => AccountingAdvance(s, t, PcOf(s, t));
    case InnerErr(t) =>
      forall u | u in r.threads
        ensures HoldsWell(r, u)
      {
        if u != t { assert HoldsWell(s, u); }
      }
    case Rearm =>
      forall u | u in r.threads
        ensures HoldsWell(r, u)
      {
        assert HoldsWell(s, u);
      }
    case Regrow(_) =>
      forall u | u in r.threads
        ensures HoldsWell(r, u)
      {
        assert HoldsWell(s, u);
      }
  }

  // ------------------------------------------------------------ exactly once

  function Count(calls: seq<Level>, level: Level): nat {
    if calls == [] then 0
    else Count(calls[..|calls| - 1], level) + (if calls[|calls| - 1] == level then 1 else 0)
  }

  lemma CountAppend(calls: seq<Level>, e: Level, level: Level)
    ensures Count(calls + [e], level) == Count(calls, level) + (if e == level then 1 else 0)
  {
    assert (calls + [e])[..|calls|] == calls;
  }

  /** Only four histories of winning read-modify-writes are possible, and the bitmap says
      which kind: critical is last whenever it is there. */
  ghost predicate WinsWell(s: State) {
    && (s.wins == [] <==> s.fired == Fired(false, false))
    && (s.wins != [] ==> s.fired.warn && (s.fired.critical <==> s.wins[|s.wins| - 1].level.Critical?))
    && (|s.wins| == 1 ==> !s.wins[0].level.Oom?)
    && (|s.wins| == 2 ==> s.wins[0].level.Warn? && s.wins[1].level.Critical?)
    && |s.wins| <= 2
  }

  /** The thread whose read-modify-write won the given level. */
  function Winner(wins: seq<Win>, level: Level): Option<Tid> {
    if wins == [] then None
    else if wins[|wins| - 1].level == level then Some(wins[|wins| - 1].t)
    else Winner(wins[..|wins| - 1], level)
  }

  lemma WinnerAppend(wins: seq<Win>, w: Win, level: Level)
    ensures Winner(wins + [w], level) == if w.level == level then Some(w.t) else Winner(wins, level)
  {
    assert (wins + [w])[..|wins|] == wins;
  }

  /** The handler of a level runs only in its winner, and exactly once: it has run unless
      the winner is just about to run it. */
  ghost predicate CallsWell(s: State, level: Level) {
    match Winner(s.wins, level)
    case None => Count(s.calls, level) == 0 && forall t :: t in s.threads ==> !About(PcOf(s, t), level)
    case Some(w) =>
      && Count(s.calls, level) == (if About(PcOf(s, w), level) then 0 else 1)
      && forall t :: t in s.threads && t != w ==> !About(PcOf(s, t), level)
  }

  predicate About(pc: Pc, level: Level) {
    (level == Critical && pc.RunCritical?) || (level == Warn && pc.RunWarn?)
  }

  ghost predicate Inv(s: State) {
    Accounting(s) && WinsWell(s) && CallsWell(s, Warn) && CallsWell(s, Critical)
  }

  predicate AtCheck(pc: Pc) { pc.Checking? || pc.Marking? }

  /** While the capacity stays between `lo` and `hi`: the critical bit is set, or nothing has
      reached the threshold of `hi` yet, or some thread that reached it is about to set the
      bit; and the bit is never set unless the threshold of `lo` has been reached. */
  ghost predicate CriticalTracked(s: State, lo: usize, hi: usize) {
    && s.constructed < USIZE_MAX && s.constructed <= hi && lo <= s.capacity <= hi
    && (s.adds == 0 ==> s.peak == 0)
    && (forall t :: t in s.threads && AtCheck(PcOf(s, t)) ==> PcOf(s, t).new_ <= s.peak && s.adds > 0)
    && (forall t :: t in s.threads && PcOf(s, t).Marking? ==> lo <= PcOf(s, t).cap <= hi)
    && (s.fired.critical ==> s.adds > 0 && Reaches(s.peak, lo, s.th.critical))
    && (s.adds > 0 && Reaches(s.peak, hi, s.th.critical) && !s.fired.critical ==>
          exists t :: t in s.threads && CriticalPending(s, t, hi))
  }

  ghost predicate CriticalPending(s: State, t: Tid, hi: usize) {
    AtCheck(PcOf(s, t)) && Reaches(PcOf(s, t).new_, hi, s.th.critical)
  }

  /** Bounds on the capacity; a capacity of zero, which no check looks at, must stay zero. */
  predicate Range(lo: usize, hi: usize) { lo <= hi && (lo == 0 ==> hi == 0) }

  lemma WinsStep(s: State, step: Step)
    requires WinsWell(s) && Enabled(s, step) && !step.Rearm?
    ensures WinsWell(Next(s, step))
    ensures s.wins <= Next(s, step).wins
  {
    hide Sum, Gate, Reaches, LevelAt;
  }

  lemma ClearBitNoWin(s: State)
    requires WinsWell(s)
    ensures !s.fired.critical ==> Winner(s.wins, Critical) == None
    ensures !s.fired.warn ==> Winner(s.wins, Warn) == None
    ensures s.fired.critical ==> Winner(s.wins, Critical).Some?
  {
    if |s.wins| >= 1 {
      assert s.wins == s.wins[..|s.wins| - 1] + [s.wins[|s.wins| - 1]];
      WinnerAppend(s.wins[..|s.wins| - 1], s.wins[|s.wins| - 1], Critical);
    }
  }

  /** A `fetch_or` that finds its bit clear. */
  lemma CallsWin(s: State, t: Tid, pc: Pc, level: Level)
    requires WinsWell(s) && CallsWell(s, level) && Enabled(s, Advance(t)) && PcOf(s, t) == pc
    requires pc.Marking? && level != Oom
    ensures CallsWell(NextOf(s, t, pc), level)
  {
    hide Sum, Gate, Reaches, LevelAt, Count, Winner, WinsWell;
    ClearBitNoWin(s);
    WinnerAppend(s.wins, Win(t, Critical), level);
    WinnerAppend(s.wins, Win(t, Warn), level);
  }

  lemma CallsRun(s: State, t: Tid, pc: Pc, level: Level)
    requires CallsWell(s, level) && Enabled(s, Advance(t)) && PcOf(s, t) == pc && !pc.Marking?
    requires level != Oom
    ensures CallsWell(NextOf(s, t, pc), level)
  {
    hide Sum, Gate, Reaches, LevelAt, Count, Winner;
    var r := NextOf(s, t, pc);
    if pc.RunCritical? {
      CountAppend(s.calls, Critical, level);
    } else if pc.RunWarn? {
      CountAppend(s.calls, Warn, level);
    } else if pc.RunOom? {
      CountAppend(s.calls, Oom, level);
    }
  }

  lemma CallsStep(s: State, step: Step, level: Level)
    requires WinsWell(s) && CallsWell(s, level) && Enabled(s, step) && !step.Rearm? && level != Oom
    ensures CallsWell(Next(s, step), level)
  {
    hide Sum, Gate, Reaches, LevelAt, NextOf, Count, Winner;
    if step.Advance? {
      var pc := PcOf(s, step.t);
      if pc.Marking? {
        CallsWin(s, step.t, pc, level);
      } else {
        CallsRun(s, step.t, pc, level);
      }
    }
  }

  /** An allocation's `fetch_add`: if it makes a new maximum that reaches the threshold,
      the gate lets it through to the check. */
  lemma CriticalAdd(s: State, t: Tid, id: nat, lo: usize, hi: usize)
    requires Accounting(s) && CriticalTracked(s, lo, hi) && Enabled(s, Advance(t)) && PcOf(s, t) == Adding(id)
    ensures CriticalTracked(NextOf(s, t, Adding(id)), lo, hi)
  {
    hide Gate, Reaches, NextOf, Accounting, CriticalPending;
    var r := NextOf(s, t, Adding(id));
    AddEffect(s, t, id);
    if s.fired.critical { ReachesMonotone(s.peak, r.peak, lo, s.th.critical); }
    if Reaches(r.peak, hi, r.th.critical) && !r.fired.critical {
      if r.peak == r.allocatedBytes {
        GateNeverSuppresses(s.constructed, hi, s.th, r.peak);
        PendingHere(r, t, hi);
      } else if s.adds > 0 {
        var u :| u in s.threads && CriticalPending(s, u, hi);
        PendingStays(s, r, u, t, hi);
      }
    }
  }

  /** What a `fetch_add` does, on a counter that does not wrap. */
  lemma AddEffect(s: State, t: Tid, id: nat)
    requires Accounting(s) && Enabled(s, Advance(t)) && PcOf(s, t) == Adding(id)
    ensures var r := NextOf(s, t, Adding(id));
            && r.peak == Max(s.peak, r.allocatedBytes) && r.adds == s.adds + 1 && r.fired == s.fired
            && r.th == s.th && r.constructed == s.constructed && r.capacity == s.capacity
            && r.threads == s.threads[t := if r.allocatedBytes >= Gate(s.constructed, s.th)
                                           then Checking(id, r.allocatedBytes) else Idle]
  {
    hide Sum, Gate, Reaches, LevelAt;
    AccountingAdd(s, t, id);
    assert HoldsWell(s, t);
  }

  lemma PendingHere(s: State, t: Tid, hi: usize)
    requires AtCheck(PcOf(s, t)) && Reaches(PcOf(s, t).new_, hi, s.th.critical)
    ensures t in s.threads && CriticalPending(s, t, hi)
  {
  }

  lemma PendingStays(s: State, r: State, u: Tid, t: Tid, hi: usize)
    requires CriticalPending(s, u, hi) && r.th == s.th && r.threads == s.threads[t := PcOf(r, t)]
    requires u != t || !AtCheck(PcOf(s, t))
    ensures u in r.threads && CriticalPending(r, u, hi)
  {
  }

  lemma ReachesWithin(bytes: nat, c: usize, lo: usize, hi: usize, pct: u8)
    requires Range(lo, hi) && lo <= c <= hi
    ensures Reaches(bytes, c, pct) ==> Reaches(bytes, lo, pct)
    ensures Reaches(bytes, hi, pct) ==> Reaches(bytes, c, pct)
  {
    if Reaches(bytes, c, pct) { ReachesSmaller(bytes, lo, c, pct); }
    if Reaches(bytes, hi, pct) { ReachesSmaller(bytes, c, hi, pct); }
  }

  lemma CriticalAdvance(s: State, t: Tid, pc: Pc, lo: usize, hi: usize)
    requires CriticalTracked(s, lo, hi) && Range(lo, hi) && Enabled(s, Advance(t)) && PcOf(s, t) == pc
    requires !pc.Adding?
    ensures CriticalTracked(NextOf(s, t, pc), lo, hi)
  {
    hide Reaches, NextOf;
    var r := NextOf(s, t, pc);
    AdvanceEffect(s, t, pc);
    if AtCheck(pc) {
      LevelMeans(pc.new_, s.capacity, s.th);
      ReachesWithin(pc.new_, s.capacity, lo, hi, s.th.critical);
      if pc.Marking? {
        LevelMeans(pc.new_, pc.cap, s.th);
        ReachesWithin(pc.new_, pc.cap, lo, hi, s.th.critical);
      }
      if Reaches(pc.new_, lo, s.th.critical) { ReachesMonotone(pc.new_, s.peak, lo, s.th.critical); }
    }
    if s.adds > 0 && Reaches(r.peak, hi, r.th.critical) && !r.fired.critical {
      var u :| u in s.threads && CriticalPending(s, u, hi);
      PendingMoves(s, r, u, t, hi);
    }
  }

  /** What the other steps of a call do to the bitmap and to the thread's program point. */
  lemma AdvanceEffect(s: State, t: Tid, pc: Pc)
    requires Enabled(s, Advance(t)) && PcOf(s, t) == pc && !pc.Adding?
    ensures var r := NextOf(s, t, pc);
            && r.peak == s.peak && r.adds == s.adds && r.th == s.th
            && r.constructed == s.constructed && r.capacity == s.capacity
            && r.threads == s.threads[t := PcOf(r, t)]
            && (r.fired.critical <==>
                  s.fired.critical || (pc.Marking? && LevelAt(pc.new_, pc.cap, s.th) == Some(Critical)))
            && (AtCheck(PcOf(r, t)) <==> pc.Checking? && LevelAt(pc.new_, s.capacity, s.th) != None)
            && (pc.Checking? && LevelAt(pc.new_, s.capacity, s.th) != None ==>
                  PcOf(r, t) == Marking(pc.id, pc.new_, s.capacity))
  {
    hide Sum, Gate, Reaches, LevelAt;
  }

  lemma PendingMoves(s: State, r: State, u: Tid, t: Tid, hi: usize)
    requires CriticalPending(s, u, hi) && r.th == s.th && r.threads == s.threads[t := PcOf(r, t)]
    requires u == t ==> AtCheck(PcOf(r, t)) && PcOf(r, t).new_ == PcOf(s, t).new_
    ensures u in r.threads && CriticalPending(r, u, hi)
  {
  }

  lemma CriticalStep(s: State, step: Step, lo: usize, hi: usize)
    requires Accounting(s) && CriticalTracked(s, lo, hi) && Range(lo, hi) && Enabled(s, step) && !step.Rearm?
    requires step.Regrow? ==> lo <= step.capacity <= hi
    ensures CriticalTracked(Next(s, step), lo, hi)
  {
    hide Accounting, CriticalTracked, Range, NextOf;
    if step.Advance? {
      if PcOf(s, step.t).Adding? {
        CriticalAdd(s, step.t, PcOf(s, step.t).id, lo, hi);
      } else {
        CriticalAdvance(s, step.t, PcOf(s, step.t), lo, hi);
      }
    } else {
      CriticalOther(s, step, lo, hi);
    }
  }

  /** Calls that begin, and changes of capacity, leave the pending threads where they are. */
  lemma CriticalOther(s: State, step: Step, lo: usize, hi: usize)
    requires CriticalTracked(s, lo, hi) && Enabled(s, step) && !step.Rearm? && !step.Advance?
    requires step.Regrow? ==> lo <= step.capacity <= hi
    ensures CriticalTracked(Next(s, step), lo, hi)
  {
    hide Sum, Gate, Reaches, LevelAt, NextOf;
    var r := Next(s, step);
    if s.adds > 0 && Reaches(r.peak, hi, r.th.critical) && !r.fired.critical {
      var u :| u in s.threads && CriticalPending(s, u, hi);
      assert CriticalPending(r, u, hi);
    }
  }

  // ------------------------------------------------------------ whole runs

  ghost predicate IsRun(states: seq<State>, steps: seq<Step>) {
    && |states| == |steps| + 1 && Init(states[0])
    && forall i :: 0 <= i < |steps| ==>
         Enabled(states[i], steps[i]) && states[i + 1] == Next(states[i], steps[i])
  }

  ghost predicate NeverRearmed(steps: seq<Step>) { Rearm !in steps }

  lemma {:induction false} RunKeepsAccounting(states: seq<State>, steps: seq<Step>, n: nat)
    requires IsRun(states, steps) && n <= |steps|
    ensures Accounting(states[n]) && states[n].th == states[0].th
    ensures states[n].constructed == states[0].constructed <= states[n].capacity
  {
    hide Next, Enabled, Accounting;
    if n == 0 {
      InitInv(states[0]);
    } else {
      RunKeepsAccounting(states, steps, n - 1);
      AccountingStep(states[n - 1], steps[n - 1]);
      SameSetup(states[n - 1], steps[n - 1]);
    }
  }

  lemma SameSetup(s: State, step: Step)
    requires Enabled(s, step)
    ensures Next(s, step).th == s.th && Next(s, step).constructed == s.constructed
    ensures Next(s, step).capacity == if step.Regrow? then step.capacity else s.capacity
    ensures step.Regrow? ==> s.constructed <= step.capacity
  {
    hide Sum, Gate, Reaches, LevelAt;
  }

  /** Without `rearm`, whatever the inner's capacity does. */
  lemma {:induction false} RunKeepsInv(states: seq<State>, steps: seq<Step>, n: nat)
    requires IsRun(states, steps) && NeverRearmed(steps) && n <= |steps|
    ensures Inv(states[n])
  {
    hide Next, Enabled, CallsWell, WinsWell, Accounting;
    if n == 0 {
      InitInv(states[0]);
    } else {
      var s, step := states[n - 1], steps[n - 1];
      RunKeepsInv(states, steps, n - 1);
      AccountingStep(s, step);
      WinsStep(s, step);
      CallsStep(s, step, Warn);
      CallsStep(s, step, Critical);
    }
  }

  lemma InitInv(s: State)
    requires Init(s)
    ensures Inv(s)
  {
  }

  /** The reported capacity stays between `lo` and `hi` for the first `n` steps. */
  ghost predicate CapacityWithin(states: seq<State>, n: nat, lo: usize, hi: usize)
    requires n < |states|
  {
    Range(lo, hi) && forall i :: 0 <= i <= n ==> lo <= states[i].capacity <= hi
  }

  lemma {:induction false} RunTracksCritical(states: seq<State>, steps: seq<Step>, n: nat, lo: usize, hi: usize)
    requires IsRun(states, steps) && NeverRearmed(steps) && n <= |steps| && CapacityWithin(states, n, lo, hi)
    requires states[0].constructed < USIZE_MAX
    ensures CriticalTracked(states[n], lo, hi)
  {
    hide Next, Enabled, Range, Accounting, CriticalTracked;
    if n == 0 {
      InitTracked(states[0], lo, hi);
    } else {
      RunTracksCritical(states, steps, n - 1, lo, hi);
      RunKeepsAccounting(states, steps, n - 1);
      SameSetup(states[n - 1], steps[n - 1]);
      assert lo <= states[n].capacity <= hi;
      CriticalStep(states[n - 1], steps[n - 1], lo, hi);
    }
  }

  lemma InitTracked(s: State, lo: usize, hi: usize)
    requires Init(s) && lo <= s.capacity <= hi && s.constructed < USIZE_MAX
    ensures CriticalTracked(s, lo, hi)
  {
  }

  /** In every run: an allocation that the gate keeps from the check reached no threshold of
      the capacity the inner reports at that moment. */
  lemma SkippedOwesNothing(states: seq<State>, steps: seq<Step>, i: nat, t: Tid)
    requires IsRun(states, steps) && i < |steps| && steps[i] == Advance(t)
    requires PcOf(states[i], t).Adding? && !PcOf(states[i + 1], t).Checking?
    requires states[0].constructed < USIZE_MAX
    ensures PcOf(states[i], t).id < |states[i].blocks|
    ensures states[i + 1].allocatedBytes == states[i].allocatedBytes + states[i].blocks[PcOf(states[i], t).id].size
    ensures LevelAt(states[i + 1].allocatedBytes, states[i].capacity, states[i].th) == None
  {
    hide Sum, Gate, Reaches, LevelAt, Accounting;
    var s := states[i];
    RunKeepsAccounting(states, steps, i);
    AccountingStep(s, steps[i]);
    var bytes := states[i + 1].allocatedBytes;
    LevelMeans(bytes, s.capacity, s.th);
    if AnyCrossing(bytes, s.capacity, s.th) {
      GateNeverSuppresses(s.constructed, s.capacity, s.th, bytes);
    }
  }

  ghost predicate Quiescent(s: State) { forall t :: t in s.threads ==> PcOf(s, t).Idle? }

  /** `m` is the largest of `allocated` over the first `n + 1` states. */
  ghost predicate IsHistoricalMax(states: seq<State>, n: nat, m: nat)
    requires n < |states|
  {
    && (forall i :: 0 <= i <= n ==> states[i].allocatedBytes <= m)
    && (exists i :: 0 <= i <= n && states[i].allocatedBytes == m)
  }

  lemma PeakMoves(s: State, step: Step)
    requires Enabled(s, step)
    ensures s.peak <= Next(s, step).peak
    ensures Next(s, step).peak != s.peak ==> Next(s, step).peak == Next(s, step).allocatedBytes
  {
    hide Sum, Gate, Reaches, LevelAt;
  }

  lemma {:induction false} PeakIsHistory(states: seq<State>, steps: seq<Step>, n: nat)
    requires IsRun(states, steps) && n <= |steps|
    ensures IsHistoricalMax(states, n, states[n].peak)
  {
    hide Sum, Enabled, Next;
    RunKeepsAccounting(states, steps, n);
    if n > 0 {
      PeakIsHistory(states, steps, n - 1);
      PeakMoves(states[n - 1], steps[n - 1]);
      if states[n].peak == states[n - 1].peak {
        var i :| 0 <= i <= n - 1 && states[i].allocatedBytes == states[n - 1].peak;
        assert states[i].allocatedBytes == states[n].peak;
      } else {
        assert states[n].allocatedBytes == states[n].peak;
      }
    }
  }

  /** Of any two wins the earlier is of warn and the later of critical. */
  ghost predicate WarnWonFirst(wins: seq<Win>) {
    forall j, k :: 0 <= j < k < |wins| ==> wins[j].level.Warn? && wins[k].level.Critical?
  }

  /** Every interleaving, no `rearm`, any thresholds, a capacity that moves between `lo` and
      `hi`. Once no call is in flight, `on_critical` has run exactly once or not at all: it
      has run if the largest value the counter ever held reaches the critical threshold of
      `hi`, and only if that value reaches the threshold of `lo`. `on_warn` has run at most
      once, and no winning of the warn bit follows the winning of the critical one. */
  lemma CriticalWithin(states: seq<State>, steps: seq<Step>, n: nat, historicalMax: nat, lo: usize, hi: usize)
    requires IsRun(states, steps) && NeverRearmed(steps) && n <= |steps| && Quiescent(states[n])
    requires IsHistoricalMax(states, n, historicalMax) && CapacityWithin(states, n, lo, hi)
    requires states[0].constructed < USIZE_MAX
    ensures var s := states[n];
            && Count(s.calls, Critical) <= 1 && Count(s.calls, Warn) <= 1
            && (s.adds > 0 && Reaches(historicalMax, hi, s.th.critical) ==> Count(s.calls, Critical) == 1)
            && (Count(s.calls, Critical) == 1 ==> s.adds > 0 && Reaches(historicalMax, lo, s.th.critical))
            && WarnWonFirst(s.wins)
  {
    hide Next, Enabled, Reaches, Count, Accounting, Range;
    var s := states[n];
    RunKeepsInv(states, steps, n);
    RunTracksCritical(states, steps, n, lo, hi);
    PeakIsHistory(states, steps, n);
    var i :| 0 <= i <= n && states[i].allocatedBytes == historicalMax;
    var j :| 0 <= j <= n && states[j].allocatedBytes == s.peak;
    assert s.peak == historicalMax;
    ClearBitNoWin(s);
    assert forall t :: t in s.threads ==>
                         !CriticalPending(s, t, hi) && !About(PcOf(s, t), Critical) && !About(PcOf(s, t), Warn);
  }

  /** With the capacity fixed the two bounds meet: exactly once if some allocation has been
      counted and the largest value of the counter reaches the threshold, else not at all. */
  lemma CriticalExactlyOnce(states: seq<State>, steps: seq<Step>, n: nat, historicalMax: nat, capacity: usize)
    requires IsRun(states, steps) && NeverRearmed(steps) && n <= |steps| && Quiescent(states[n])
    requires IsHistoricalMax(states, n, historicalMax)
    requires states[0].constructed < USIZE_MAX && forall i :: 0 <= i <= n ==> states[i].capacity == capacity
    ensures var s := states[n];
            && Count(s.calls, Critical) ==
               (if s.adds > 0 && Reaches(historicalMax, capacity, s.th.critical) then 1 else 0)
            && Count(s.calls, Warn) <= 1
            && WarnWonFirst(s.wins)
  {
    hide IsRun, Reaches, Count, Quiescent, IsHistoricalMax;
    CriticalWithin(states, steps, n, historicalMax, capacity, capacity);
  }

  /** At every moment, in flight or not, neither handler has run twice. */
  lemma NeverTwice(states: seq<State>, steps: seq<Step>, n: nat)
    requires IsRun(states, steps) && NeverRearmed(steps) && n <= |steps|
    ensures Count(states[n].calls, Critical) <= 1 && Count(states[n].calls, Warn) <= 1
  {
    RunKeepsInv(states, steps, n);
  }

  // ------------------------------------------------------------ epochs between rearms

  function LevelsOf(wins: seq<Win>): (levels: seq<Level>)
    ensures |levels| == |wins| && forall i :: 0 <= i < |wins| ==> levels[i] == wins[i].level
  {
    seq(|wins|, i requires 0 <= i < |wins| => wins[i].level)
  }

  /** The level a step's `fetch_or` is for, if the step is one: the level its byte count
      reaches at the capacity its check has read. */
  function CheckAt(s: State, step: Step): Option<Level> {
    if step.Advance? && PcOf(s, step.t).Marking? then LevelAt(PcOf(s, step.t).new_, PcOf(s, step.t).cap, s.th)
    else None
  }

  function AsLevels(o: Option<Level>): seq<Level> { if o.Some? then [o.value] else [] }

  /** The levels reached by the checks of steps `m` to `n`, in order. */
  ghost function Checks(states: seq<State>, steps: seq<Step>, m: nat, n: nat): seq<Level>
    requires m <= n <= |steps| <= |states|
    decreases n
  {
    if m == n then [] else Checks(states, steps, m, n - 1) + AsLevels(CheckAt(states[n - 1], steps[n - 1]))
  }

  /** What an epoch owes for the checks it has seen: warn only if it came first, critical
      once if it came at all. */
  function Digest(checks: seq<Level>): seq<Level> {
    if checks == [] then []
    else if checks[0] == Critical then [Critical]
    else if Critical in checks then [Warn, Critical]
    else [Warn]
  }

  lemma DigestAppend(checks: seq<Level>, l: Level)
    requires forall i :: 0 <= i < |checks| ==> checks[i] != Oom
    requires l != Oom
    ensures Digest(checks + [l]) ==
            Digest(checks) + (if l == Critical then (if Critical in checks then [] else [Critical])
                              else if checks == [] then [Warn] else [])
    ensures Critical in checks + [l] <==> Critical in checks || l == Critical
  {
    var after := checks + [l];
    assert after[0] == if checks == [] then l else checks[0];
    assert forall x :: x in after <==> x in checks || x == l;
  }

  lemma CheckEffect(s: State, step: Step)
    requires Enabled(s, step) && step != Rearm
    ensures var r, check := Next(s, step), CheckAt(s, step);
            && r.fired == Fired(s.fired.warn || check.Some?, s.fired.critical || check == Some(Critical))
            && LevelsOf(r.wins) == LevelsOf(s.wins) +
               (if check == Some(Critical) && !s.fired.critical then [Critical]
                else if check == Some(Warn) && !s.fired.warn then [Warn] else [])
            && s.wins <= r.wins
  {
    hide Sum, Gate, LevelAt;
    var check := CheckAt(s, step);
    if check.Some? {
      LevelMeans(PcOf(s, step.t).new_, PcOf(s, step.t).cap, s.th);
      LevelsAppend(s.wins, Win(step.t, check.value));
    }
  }

  lemma RearmEffect(s: State)
    ensures Enabled(s, Rearm) && Next(s, Rearm).fired == Fired(false, false)
  {
  }

  /** Steps `m` to `n` with no rearm among them, starting where the bitmap was clear. */
  ghost predicate Epoch(steps: seq<Step>, m: nat, n: nat) {
    && m <= n <= |steps| && (m == 0 || steps[m - 1] == Rearm)
    && forall i :: m <= i < n ==> steps[i] != Rearm
  }

  /** The exact guarantee of every epoch of every run, whatever the capacity does: the
      levels won in it are a function of the levels its checks reach. In particular critical is won once if
      some check reaches it, warn is won exactly when the first check to reach anything
      stays below critical, and never after critical. */
  lemma {:induction false} EpochExact(states: seq<State>, steps: seq<Step>, m: nat, n: nat)
    requires IsRun(states, steps) && Epoch(steps, m, n)
    ensures var checks := Checks(states, steps, m, n);
            && (forall i :: 0 <= i < |checks| ==> checks[i] != Oom)
            && LevelsOf(states[n].wins) == LevelsOf(states[m].wins) + Digest(checks)
            && states[n].fired == Fired(checks != [], Critical in checks)
  {
    hide Next, Enabled, CheckAt, LevelsOf, Digest, Init;
    if m == n {
      EpochStarts(states, steps, m);
      DigestEmpty();
    } else {
      EpochExact(states, steps, m, n - 1);
      EpochStep(states[n - 1], steps[n - 1], LevelsOf(states[m].wins), Checks(states, steps, m, n - 1));
    }
  }

  lemma EpochStep(s: State, step: Step, base: seq<Level>, checks: seq<Level>)
    requires Enabled(s, step) && step != Rearm
    requires forall i :: 0 <= i < |checks| ==> checks[i] != Oom
    requires LevelsOf(s.wins) == base + Digest(checks) && s.fired == Fired(checks != [], Critical in checks)
    ensures var r, after := Next(s, step), checks + AsLevels(CheckAt(s, step));
            && (forall i :: 0 <= i < |after| ==> after[i] != Oom)
            && LevelsOf(r.wins) == base + Digest(after)
            && r.fired == Fired(after != [], Critical in after)
  {
    hide Next, Enabled, CheckAt, LevelsOf, Digest;
    CheckEffect(s, step);
    CheckLevels(s, step);
    if CheckAt(s, step).Some? {
      DigestAppend(checks, CheckAt(s, step).value);
    } else {
      assert checks + AsLevels(CheckAt(s, step)) == checks;
    }
  }

  lemma DigestEmpty()
    ensures Digest([]) == []
  {
  }

  lemma CheckLevels(s: State, step: Step)
    ensures CheckAt(s, step) != Some(Oom)
  {
    hide Reaches;
  }

  lemma EpochStarts(states: seq<State>, steps: seq<Step>, m: nat)
    requires IsRun(states, steps) && Epoch(steps, m, m)
    ensures states[m].fired == Fired(false, false)
  {
    hide Next, Enabled;
    if m > 0 { RearmEffect(states[m - 1]); }
  }

  /** The threads about to call the handler of a level. */
  ghost function Waiting(s: State, level: Level): set<Tid> {
    set t | t in s.threads && About(s.threads[t], level)
  }

  predicate Calls(s: State, step: Step, level: Level) { step.Advance? && About(PcOf(s, step.t), level) }

  predicate Wins(s: State, step: Step, level: Level)
    requires Enabled(s, step)
  {
    step.Advance? && PcOf(s, step.t).Marking? && About(PcOf(Next(s, step), step.t), level)
  }

  /** A step makes a call exactly if it takes its thread off the waiting list, and puts it
      on the list exactly if it wins the level. */
  lemma WaitingEffect(s: State, step: Step, level: Level)
    requires Enabled(s, step) && level != Oom
    ensures var called, won := Calls(s, step, level), Wins(s, step, level);
            && Waiting(Next(s, step), level) == (if called then Waiting(s, level) - {step.t}
                                                 else if won then Waiting(s, level) + {step.t} else Waiting(s, level))
            && (called ==> step.t in Waiting(s, level)) && (won ==> !called && step.t !in Waiting(s, level))
  {
    hide Sum, Gate, Reaches, LevelAt;
  }

  lemma CallsEffect(s: State, step: Step, level: Level)
    requires Enabled(s, step) && level != Oom
    ensures Count(Next(s, step).calls, level) == Count(s.calls, level) + (if Calls(s, step, level) then 1 else 0)
  {
    hide Sum, Gate, Reaches, LevelAt, Count;
    CountAppend(s.calls, Critical, level);
    CountAppend(s.calls, Warn, level);
    CountAppend(s.calls, Oom, level);
  }

  lemma WinsEffect(s: State, step: Step, level: Level)
    requires Enabled(s, step) && level != Oom
    ensures var r := Next(s, step);
            Count(LevelsOf(r.wins), level) == Count(LevelsOf(s.wins), level) + (if Wins(s, step, level) then 1 else 0)
  {
    hide Sum, Gate, Reaches, LevelAt, Count, LevelsOf;
    var r := Next(s, step);
    if r.wins != s.wins {
      LevelsAppend(s.wins, r.wins[|s.wins|]);
      CountAppend(LevelsOf(s.wins), r.wins[|s.wins|].level, level);
    }
  }

  lemma LevelsAppend(wins: seq<Win>, w: Win)
    ensures LevelsOf(wins + [w]) == LevelsOf(wins) + [w.level]
  {
  }

  lemma {:induction false} WinsAreCalled(states: seq<State>, steps: seq<Step>, n: nat, level: Level)
    requires IsRun(states, steps) && n <= |steps| && level != Oom
    ensures Count(states[n].calls, level) + |Waiting(states[n], level)| == Count(LevelsOf(states[n].wins), level)
  {
    hide Next, Enabled, Waiting, LevelsOf, Count, Calls, Wins;
    if n == 0 {
      NothingWaits(states[0], level);
    } else {
      WinsAreCalled(states, steps, n - 1, level);
      WaitingEffect(states[n - 1], steps[n - 1], level);
      CallsEffect(states[n - 1], steps[n - 1], level);
      WinsEffect(states[n - 1], steps[n - 1], level);
    }
  }

  lemma NothingWaits(s: State, level: Level)
    requires s.threads == map[] && s.calls == [] && s.wins == []
    ensures Waiting(s, level) == {} && Count(s.calls, level) == Count(LevelsOf(s.wins), level) == 0
  {
    assert LevelsOf(s.wins) == [];
  }

  /** Every run, any number of rearms: whenever no call is in flight, the handler of a level
      has been called exactly once for every time the level was won. */
  lemma HandlersMatchWins(states: seq<State>, steps: seq<Step>, n: nat, level: Level)
    requires IsRun(states, steps) && n <= |steps| && Quiescent(states[n]) && level != Oom
    ensures Count(states[n].calls, level) == Count(LevelsOf(states[n].wins), level)
  {
    hide Next, Enabled, Count, LevelsOf;
    WinsAreCalled(states, steps, n, level);
    assert Waiting(states[n], level) == {};
  }

  /** Without `rearm`, once no call is in flight: `on_warn` has run exactly if the first
      check to reach a threshold reached warn and not critical, `on_critical` exactly if
      some check reached critical, each of them once. */
  lemma HandlersRunExactly(states: seq<State>, steps: seq<Step>, n: nat)
    requires IsRun(states, steps) && NeverRearmed(steps) && n <= |steps| && Quiescent(states[n])
    ensures var checks := Checks(states, steps, 0, n);
            && Count(states[n].calls, Warn) == (if checks != [] && checks[0] == Warn then 1 else 0)
            && Count(states[n].calls, Critical) == (if Critical in checks then 1 else 0)
  {
    hide Next, Enabled, LevelsOf, Checks, Quiescent;
    EpochExact(states, steps, 0, n);
    HandlersMatchWins(states, steps, n, Warn);
    HandlersMatchWins(states, steps, n, Critical);
    NoWins(states[0].wins);
    DigestCounts(Checks(states, steps, 0, n));
  }

  lemma NoWins(wins: seq<Win>)
    requires wins == []
    ensures LevelsOf(wins) == []
  {
  }

  lemma CountNone(calls: seq<Level>, l: Level)
    requires calls == []
    ensures Count(calls, l) == 0
  {
  }

  lemma CountSmall(l: Level)
    ensures Count([], l) == 0 && Count([l], l) == 1
    ensures Count([Warn], l) == (if l == Warn then 1 else 0)
    ensures Count([Critical], l) == (if l == Critical then 1 else 0)
    ensures Count([Warn, Critical], l) == (if l == Oom then 0 else 1)
  {
    CountNone([], l);
    hide Count;
    CountAppend([], l, l);
    CountAppend([], Warn, l);
    CountAppend([], Critical, l);
    CountAppend([Warn], Critical, l);
    assert [] + [l] == [l];
    assert [] + [Warn] == [Warn] && [] + [Critical] == [Critical] && [Warn] + [Critical] == [Warn, Critical];
  }

  lemma DigestCounts(checks: seq<Level>)
    requires forall i :: 0 <= i < |checks| ==> checks[i] != Oom
    ensures Count([] + Digest(checks), Warn) == (if checks != [] && checks[0] == Warn then 1 else 0)
    ensures Count([] + Digest(checks), Critical) == (if Critical in checks then 1 else 0)
  {
    hide Count;
    forall l | l == Warn || l == Critical
      ensures Count([], l) == 0 && Count([l], l) == 1
      ensures Count([Warn], l) == (if l == Warn then 1 else 0)
      ensures Count([Critical], l) == (if l == Critical then 1 else 0)
      ensures Count([Warn, Critical], l) == 1
    {
      CountSmall(l);
    }
    assert [] + Digest(checks) == Digest(checks);
  }

  // ------------------------------------------------------------ handler order

  ghost predicate CriticalBeforeWarn(calls: seq<Level>) {
    exists i, j :: 0 <= i < j < |calls| && calls[i] == Critical && calls[j] == Warn
  }

  lemma CountPrefix(calls: seq<Level>, n: nat, level: Level)
    requires n <= |calls|
    ensures Count(calls[..n], level) <= Count(calls, level)
    ensures (exists j :: n <= j < |calls| && calls[j] == level) ==> Count(calls[..n], level) < Count(calls, level)
  {
    if n < |calls| {
      CountPrefix(calls[..|calls| - 1], n, level);
      assert calls[..|calls| - 1][..n] == calls[..n];
    } else {
      assert calls[..n] == calls;
    }
  }

  lemma {:induction false} CountPositive(calls: seq<Level>, level: Level)
    ensures Count(calls, level) > 0 <==> level in calls
  {
    if calls != [] {
      CountPositive(calls[..|calls| - 1], level);
      assert calls == calls[..|calls| - 1] + [calls[|calls| - 1]];
    }
  }

  /** One step adds at most one handler call, and says whose. */
  lemma CallsGrow(s: State, step: Step)
    requires Enabled(s, step)
    ensures var r := Next(s, step);
            || r.calls == s.calls
            || (step.Advance?
                && var pc := PcOf(s, step.t);
                   (pc.RunCritical? || pc.RunWarn? || pc.RunOom?)
                   && r.calls == s.calls + [if pc.RunCritical? then Critical else if pc.RunWarn? then Warn else Oom])
    ensures step.Advance? && PcOf(s, step.t).RunCritical? ==> Next(s, step).calls == s.calls + [Critical]
  {
    hide Sum, Gate, Reaches, LevelAt;
  }

  /** The calls and wins of a run only grow. */
  lemma {:induction false} HistoryGrows(states: seq<State>, steps: seq<Step>, m: nat, n: nat)
    requires IsRun(states, steps) && m <= n <= |steps|
    ensures states[m].calls <= states[n].calls && states[m].wins <= states[n].wins
  {
    hide Next, Enabled, Init;
    if m < n {
      HistoryGrows(states, steps, m, n - 1);
      CallsGrow(states[n - 1], steps[n - 1]);
      WinsGrow(states[n - 1], steps[n - 1]);
    }
  }

  lemma WinsGrow(s: State, step: Step)
    requires Enabled(s, step)
    ensures s.wins <= Next(s, step).wins
  {
    hide Sum, Gate, Reaches, LevelAt;
  }

  /** The step that made the `a`-th call. */
  lemma {:induction false} CallMade(states: seq<State>, steps: seq<Step>, n: nat, a: nat) returns (i: nat)
    requires IsRun(states, steps) && n <= |steps| && a < |states[n].calls|
    ensures i < n && |states[i].calls| == a && |states[i + 1].calls| == a + 1
  {
    hide Next, Enabled;
    CallsGrow(states[n - 1], steps[n - 1]);
    if a < |states[n - 1].calls| {
      i := CallMade(states, steps, n - 1, a);
    } else {
      i := n - 1;
    }
  }

  /** At step `i` a critical handler runs while the winner of the warn bit, which won it
      first, is still about to run its own. */
  ghost predicate Overtakes(states: seq<State>, steps: seq<Step>, i: nat)
    requires i < |steps| <= |states|
  {
    && steps[i].Advance? && PcOf(states[i], steps[i].t).RunCritical?
    && exists u :: u in states[i].threads && PcOf(states[i], u).RunWarn?
  }

  /** In every run without `rearm`: a warn call follows a critical one exactly when the
      warn handler has been called and its winner was still waiting to call it at the step
      at which the critical handler ran. */
  lemma LateWarnIffOvertaken(states: seq<State>, steps: seq<Step>, n: nat)
    requires IsRun(states, steps) && NeverRearmed(steps) && n <= |steps|
    ensures CriticalBeforeWarn(states[n].calls) <==>
            Warn in states[n].calls && exists i :: 0 <= i < n && Overtakes(states, steps, i)
  {
    if CriticalBeforeWarn(states[n].calls) {
      LateWarnWasOvertaken(states, steps, n);
    }
    if Warn in states[n].calls && exists i :: 0 <= i < n && Overtakes(states, steps, i) {
      var i :| 0 <= i < n && Overtakes(states, steps, i);
      OvertakenIsLate(states, steps, n, i);
    }
  }

  lemma OvertakenIsLate(states: seq<State>, steps: seq<Step>, n: nat, i: nat)
    requires IsRun(states, steps) && NeverRearmed(steps) && i < n <= |steps|
    requires Overtakes(states, steps, i) && Warn in states[n].calls
    ensures CriticalBeforeWarn(states[n].calls)
  {
    hide Next, Enabled, WinsWell, Accounting, Count, Winner, Init;
    var s, calls := states[i], states[n].calls;
    RunKeepsInv(states, steps, i);
    CallsGrow(s, steps[i]);
    HistoryGrows(states, steps, i + 1, n);
    var j :| 0 <= j < |calls| && calls[j] == Warn;
    CountPositive(s.calls, Warn);
    assert Count(s.calls, Warn) == 0;
    assert calls[|s.calls|] == Critical;
    assert forall k :: 0 <= k < |s.calls| ==> calls[k] == s.calls[k] != Warn;
  }

  lemma LateWarnWasOvertaken(states: seq<State>, steps: seq<Step>, n: nat)
    requires IsRun(states, steps) && NeverRearmed(steps) && n <= |steps| && CriticalBeforeWarn(states[n].calls)
    ensures Warn in states[n].calls && exists i :: 0 <= i < n && Overtakes(states, steps, i)
  {
    hide Next, Enabled, Accounting, Count, Init, WinsWell, CallsWell;
    var calls := states[n].calls;
    var a, b :| 0 <= a < b < |calls| && calls[a] == Critical && calls[b] == Warn;
    var i := CallMade(states, steps, n, a);
    var s := states[i];
    CallsGrow(s, steps[i]);
    HistoryGrows(states, steps, i, n);
    HistoryGrows(states, steps, i + 1, n);
    RunKeepsInv(states, steps, i);
    RunKeepsInv(states, steps, n);
    assert states[i + 1].calls[a] == calls[a];
    assert calls[b] in calls;
    CountPrefix(calls, a, Warn);
    assert calls[..a] == s.calls;
    StepperIsKnown(s, steps[i].t);
    NoWarnYet(s, states[n], steps[i].t);
    assert Overtakes(states, steps, i);
  }

  lemma StepperIsKnown(s: State, t: Tid)
    ensures !PcOf(s, t).Idle? ==> t in s.threads
  {
  }

  /** If critical is about to run, warn is called in the end and has not been called yet,
      then the thread that won warn is about to call it. */
  lemma NoWarnYet(s: State, last: State, t: Tid)
    requires Inv(s) && Inv(last) && s.wins <= last.wins && PcOf(s, t).RunCritical? && t in s.threads
    requires Count(s.calls, Warn) < Count(last.calls, Warn)
    ensures exists u :: u in s.threads && PcOf(s, u).RunWarn?
  {
    hide Accounting, Count, Winner;
    assert About(PcOf(s, t), Critical);
    WinnerShape(s.wins);
    WinnerShape(last.wins);
    assert Winner(s.wins, Warn).Some?;
    assert About(PcOf(s, Winner(s.wins, Warn).value), Warn);
  }

  lemma WinnerShape(wins: seq<Win>)
    requires |wins| <= 2
    ensures forall l :: |wins| == 0 ==> Winner(wins, l) == None
    ensures forall l :: |wins| == 1 ==> Winner(wins, l) == if wins[0].level == l then Some(wins[0].t) else None
    ensures forall l :: |wins| == 2 ==>
              Winner(wins, l) == if wins[1].level == l then Some(wins[1].t)
                                 else if wins[0].level == l then Some(wins[0].t) else None
  {
    if |wins| == 2 { assert wins[..1] == [wins[0]]; }
  }

  // ------------------------------------------------------------ which configurations allow it

  predicate InWarnBand(bytes: nat, capacity: nat, th: Thresholds) {
    Reaches(bytes, capacity, th.warn) && !Reaches(bytes, capacity, th.critical)
  }

  /** The fewest bytes, at least one, that reach a threshold. */
  function LeastReaching(capacity: nat, pct: u8): nat { Max(1, (pct * capacity + 99) / 100) }

  lemma LeastReachingExact(bytes: nat, capacity: nat, pct: u8)
    requires capacity > 0 && bytes > 0
    ensures Reaches(bytes, capacity, pct) <==> bytes >= LeastReaching(capacity, pct)
  {
    hide Reaches;
    ReachesExact(bytes, capacity, pct);
  }

  /** Computed from the configuration alone: the fewest bytes that reach warn fall short of
      critical, and critical can be reached at all. */
  predicate LateWarnPossible(capacity: nat, th: Thresholds) {
    LeastReaching(capacity, th.warn) * 100 < th.critical * capacity <= USIZE_MAX * 100
  }

  /** The same in terms of byte counts: some count is at or above warn and below critical,
      and some count reaches critical. */
  lemma LateWarnPossibleExact(capacity: nat, th: Thresholds)
    ensures LateWarnPossible(capacity, th) <==>
            && (exists b: nat :: 0 < b <= USIZE_MAX && InWarnBand(b, capacity, th))
            && Reaches(USIZE_MAX, capacity, th.critical)
    ensures LateWarnPossible(capacity, th) ==> capacity > 0
  {
    if capacity == 0 {
      LeastIsPositive(0, th.warn);
      return;
    }
    hide Reaches, LeastReaching;
    var least := LeastReaching(capacity, th.warn);
    LeastIsPositive(capacity, th.warn);
    ReachesExact(USIZE_MAX, capacity, th.critical);
    ReachesExact(least, capacity, th.critical);
    LeastReachingExact(least, capacity, th.warn);
    forall b: nat | 0 < b <= USIZE_MAX && InWarnBand(b, capacity, th)
      ensures least * 100 < th.critical * capacity
    {
      LeastReachingExact(b, capacity, th.warn);
      ReachesExact(b, capacity, th.critical);
    }
    if LateWarnPossible(capacity, th) { assert InWarnBand(least, capacity, th); }
  }

  lemma LeastIsPositive(capacity: nat, pct: u8)
    ensures LeastReaching(capacity, pct) > 0
  {
  }

  /** The inner reports the same capacity all along. */
  ghost predicate FixedCapacity(steps: seq<Step>) {
    forall i :: 0 <= i < |steps| ==> !steps[i].Regrow?
  }

  ghost predicate BandExists(s: State) { exists b: nat :: 0 < b <= USIZE_MAX && InWarnBand(b, s.capacity, s.th) }

  ghost predicate CriticalExists(s: State) { Reaches(USIZE_MAX, s.capacity, s.th.critical) }

  /** Every handler call, made or about to be made, has its cause in the configuration. */
  ghost predicate Caused(s: State) {
    && (forall id :: 0 <= id < |s.blocks| ==> 0 < s.blocks[id].size)
    && (forall t :: t in s.threads && AtCheck(s.threads[t]) ==> 0 < s.threads[t].new_ <= USIZE_MAX)
    && (forall t :: t in s.threads && s.threads[t].Marking? ==> s.threads[t].cap == s.capacity)
    && (forall t :: t in s.threads && s.threads[t].RunWarn? ==> BandExists(s))
    && (forall t :: t in s.threads && s.threads[t].RunCritical? ==> CriticalExists(s))
    && (Warn in s.calls ==> BandExists(s)) && (Critical in s.calls ==> CriticalExists(s))
  }

  lemma CausedStep(s: State, step: Step)
    requires Caused(s) && Enabled(s, step) && !step.Regrow?
    ensures Caused(Next(s, step))
    ensures Next(s, step).th == s.th && Next(s, step).capacity == s.capacity
  {
    hide Sum, Gate, Reaches, LevelAt, BandExists, CriticalExists, NextOf;
    var r := Next(s, step);
    SameConfig(s, step);
    if step.Advance? { CausedAdvance(s, step.t, PcOf(s, step.t)); }
  }

  lemma SameConfig(s: State, step: Step)
    requires Enabled(s, step) && !step.Regrow?
    ensures Next(s, step).th == s.th && Next(s, step).capacity == s.capacity
    ensures BandExists(Next(s, step)) <==> BandExists(s)
    ensures CriticalExists(Next(s, step)) <==> CriticalExists(s)
  {
    hide Sum, Gate, Reaches, LevelAt, InWarnBand;
  }

  lemma CausedAdvance(s: State, t: Tid, pc: Pc)
    requires Caused(s) && Enabled(s, Advance(t)) && PcOf(s, t) == pc
    ensures Caused(NextOf(s, t, pc))
  {
    hide Sum, Gate, LevelAt, BandExists, CriticalExists, NextOf;
    if pc.Marking? {
      CausedMark(s, t, pc);
    } else if pc.RunCritical? || pc.RunWarn? || pc.RunOom? {
      CausedRun(s, t, pc);
    } else {
      CausedMove(s, t, pc);
    }
  }

  lemma CausedMove(s: State, t: Tid, pc: Pc)
    requires Caused(s) && Enabled(s, Advance(t)) && PcOf(s, t) == pc
    requires pc.Adding? || pc.Checking? || pc.Freeing?
    ensures Caused(NextOf(s, t, pc))
  {
    hide Sum, Gate, LevelAt, BandExists, CriticalExists;
    SameConfig(s, Advance(t));
  }

  lemma CausedRun(s: State, t: Tid, pc: Pc)
    requires Caused(s) && Enabled(s, Advance(t)) && PcOf(s, t) == pc
    requires pc.RunCritical? || pc.RunWarn? || pc.RunOom?
    ensures Caused(NextOf(s, t, pc))
  {
    hide Sum, Gate, LevelAt, BandExists, CriticalExists;
    SameConfig(s, Advance(t));
    var level := if pc.RunCritical? then Critical else if pc.RunWarn? then Warn else Oom;
    assert forall l :: l in s.calls + [level] <==> l in s.calls || l == level;
  }

  lemma CausedMark(s: State, t: Tid, pc: Pc)
    requires Caused(s) && Enabled(s, Advance(t)) && PcOf(s, t) == pc && pc.Marking?
    ensures Caused(NextOf(s, t, pc))
  {
    hide Sum, Gate, LevelAt, BandExists, CriticalExists;
    SameConfig(s, Advance(t));
    CheckCauses(s, pc.new_);
  }

  lemma CheckCauses(s: State, bytes: nat)
    requires 0 < bytes <= USIZE_MAX
    ensures LevelAt(bytes, s.capacity, s.th) == Some(Warn) ==> BandExists(s)
    ensures LevelAt(bytes, s.capacity, s.th) == Some(Critical) ==> CriticalExists(s)
  {
    hide Reaches;
    if Reaches(bytes, s.capacity, s.th.critical) {
      ReachesAtMost(bytes, s.capacity, s.th.critical);
    } else if Reaches(bytes, s.capacity, s.th.warn) {
      assert InWarnBand(bytes, s.capacity, s.th);
    }
  }

  lemma ReachesAtMost(bytes: nat, capacity: nat, pct: u8)
    requires bytes <= USIZE_MAX && Reaches(bytes, capacity, pct)
    ensures Reaches(USIZE_MAX, capacity, pct)
  {
    ReachesMonotone(bytes, USIZE_MAX, capacity, pct);
  }

  lemma {:induction false} RunKeepsCaused(states: seq<State>, steps: seq<Step>, n: nat)
    requires IsRun(states, steps) && FixedCapacity(steps) && n <= |steps|
    ensures Caused(states[n]) && states[n].th == states[0].th && states[n].capacity == states[0].capacity
  {
    hide Next, Enabled, BandExists, CriticalExists;
    if n > 0 {
      RunKeepsCaused(states, steps, n - 1);
      CausedStep(states[n - 1], steps[n - 1]);
    }
  }

  // ------------------------------------------------------------ what one check does

  /** The handler call, if any, that a check of `bytes` against the bitmap makes. */
  function Fires(bytes: nat, capacity: nat, th: Thresholds, fired: Fired): Option<Level> {
    match LevelAt(bytes, capacity, th)
    case Some(Critical) => if fired.critical then None else Some(Critical)
    case Some(Warn) => if fired.warn then None else Some(Warn)
    case _ => None
  }

  /** The bitmap after such a check. */
  function Marked(bytes: nat, capacity: nat, th: Thresholds, fired: Fired): Fired {
    match LevelAt(bytes, capacity, th)
    case Some(Critical) => Fired(true, true)
    case Some(Warn) => fired.(warn := true)
    case _ => fired
  }

  /** Below the gate a check would have done nothing, bitmap included. */
  lemma GateSkips(bytes: nat, constructed: usize, live: usize, th: Thresholds, fired: Fired)
    requires bytes < Gate(constructed, th)
    requires constructed < USIZE_MAX && constructed <= live
    ensures Fires(bytes, live, th, fired) == None && Marked(bytes, live, th, fired) == fired
  {
    hide Gate, Reaches;
    if AnyCrossing(bytes, live, th) { GateNeverSuppresses(constructed, live, th, bytes); }
  }

  // ------------------------------------------------------------ a run in which warn is late

  /** A run under construction. */
  datatype Trace = Trace(states: seq<State>, steps: seq<Step>)

  ghost predicate Good(r: Trace) { IsRun(r.states, r.steps) && NeverRearmed(r.steps) && FixedCapacity(r.steps) }

  ghost function Last(r: Trace): State
    requires Good(r)
  {
    r.states[|r.steps|]
  }

  lemma Extend(r: Trace, step: Step) returns (q: Trace)
    requires Good(r) && Enabled(Last(r), step) && step != Rearm && !step.Regrow?
    ensures Good(q) && Last(q) == Next(Last(r), step) && q.states[0] == r.states[0]
  {
    hide Next, Enabled, Init;
    q := Trace(r.states + [Next(Last(r), step)], r.steps + [step]);
    forall i | 0 <= i < |q.steps|
      ensures Enabled(q.states[i], q.steps[i]) && q.states[i + 1] == Next(q.states[i], q.steps[i])
    {
      if i < |r.steps| { assert q.states[i + 1] == r.states[i + 1]; }
    }
  }

  lemma Start(th: Thresholds, capacity: usize) returns (r: Trace)
    requires 0 < capacity < USIZE_MAX
    ensures Good(r) && Calm(Last(r), th, capacity, 0) && Last(r) == r.states[0]
    ensures Last(r).threads == map[] && Last(r).fired == Fired(false, false) && Last(r).calls == []
  {
    r := Trace([State(th, capacity, capacity, 0, Fired(false, false), [], map[], [], [], 0, 0)], []);
  }

  /** All blocks ever issued are counted and live: `bytes` in total. */
  ghost predicate Calm(s: State, th: Thresholds, capacity: usize, bytes: nat) {
    && s.th == th && s.constructed == s.capacity == capacity < USIZE_MAX
    && s.allocatedBytes == bytes == Sum(s.blocks, LiveBytes)
  }

  /** A block moving from one holder to another stays live. */
  lemma StillLive(blocks: seq<Block>, id: nat, b: Block)
    requires id < |blocks| && LiveBytes(b) == LiveBytes(blocks[id])
    ensures Sum(blocks[id := b], LiveBytes) == Sum(blocks, LiveBytes)
  {
    hide Sum, LiveBytes;
    SumUpdate(blocks, LiveBytes, id, b);
  }

  /** A new thread's allocation up to its check, when the gate lets it through. */
  lemma Counted(r: Trace, t: Tid, size: nat, bytes: nat) returns (q: Trace)
    requires Good(r) && Calm(Last(r), Last(r).th, Last(r).capacity, bytes) && t !in Last(r).threads
    requires 0 < size <= ISIZE_MAX && bytes + size <= USIZE_MAX
    ensures Good(q) && q.states[0] == r.states[0]
    ensures var s, f, id := Last(r), Last(q), |Last(r).blocks|;
            && Calm(f, s.th, s.capacity, bytes + size)
            && f.fired == s.fired && f.calls == s.calls && id < |f.blocks| && f.blocks[id].holder != Gone
            && f.threads == s.threads[t := if bytes + size >= Gate(s.capacity, s.th) then Checking(id, bytes + size)
                                           else Idle]
  {
    hide Gate, Reaches, Sum;
    var s := Last(r);
    var b := Block(size, InCall(t), false);
    q := Extend(r, InnerOk(t, size));
    SumAppend(s.blocks, LiveBytes, b);
    var m := Last(q);
    q := Extend(q, Advance(t));
    var f := Last(q);
    WordExact(bytes, size);
    assert m.blocks[|s.blocks|] == b;
    assert f.blocks == m.blocks[|s.blocks| := f.blocks[|s.blocks|]];
    StillLive(m.blocks, |s.blocks|, f.blocks[|s.blocks|]);
    assert f.allocatedBytes == bytes + size;
    assert f.threads == s.threads[t := f.threads[t]];
    assert f.threads[t] == if bytes + size >= Gate(s.capacity, s.th) then Checking(|s.blocks|, bytes + size) else Idle;
  }

  /** The `fetch_or` of a check that has read the capacity. */
  lemma Marks(r: Trace, t: Tid, id: nat, bytes: nat) returns (q: Trace)
    requires Good(r) && Calm(Last(r), Last(r).th, Last(r).capacity, bytes)
    requires t in Last(r).threads && Last(r).threads[t] == Marking(id, bytes, Last(r).capacity)
    requires id < |Last(r).blocks| && Last(r).blocks[id].holder != Gone
    requires LevelAt(bytes, Last(r).capacity, Last(r).th) != None
    ensures Good(q) && q.states[0] == r.states[0]
    ensures var s, f := Last(r), Last(q);
            var call := Fires(bytes, s.capacity, s.th, s.fired);
            && Calm(f, s.th, s.capacity, bytes) && f.calls == s.calls
            && f.fired == Marked(bytes, s.capacity, s.th, s.fired)
            && |f.blocks| == |s.blocks| && f.blocks[id].holder != Gone
            && f.threads == s.threads[t := if call == None then Idle
                                           else if call == Some(Critical) then RunCritical(id, bytes)
                                           else RunWarn(id, bytes)]
  {
    hide Gate, LevelAt, Sum;
    var s := Last(r);
    LevelMeans(bytes, s.capacity, s.th);
    q := Extend(r, Advance(t));
    StillLive(s.blocks, id, Last(q).blocks[id]);
  }

  /** A check by thread `t`, whatever it does. */
  lemma Checked(r: Trace, t: Tid, id: nat, bytes: nat) returns (q: Trace)
    requires Good(r) && Calm(Last(r), Last(r).th, Last(r).capacity, bytes)
    requires t in Last(r).threads && Last(r).threads[t] == Checking(id, bytes)
    requires id < |Last(r).blocks| && Last(r).blocks[id].holder != Gone
    ensures Good(q) && q.states[0] == r.states[0]
    ensures var s, f := Last(r), Last(q);
            var call := Fires(bytes, s.capacity, s.th, s.fired);
            && Calm(f, s.th, s.capacity, bytes) && f.calls == s.calls
            && f.fired == Marked(bytes, s.capacity, s.th, s.fired)
            && |f.blocks| == |s.blocks| && f.blocks[id].holder != Gone
            && f.threads == s.threads[t := if call == None then Idle
                                           else if call == Some(Critical) then RunCritical(id, bytes)
                                           else RunWarn(id, bytes)]
  {
    hide Gate, LevelAt, Sum;
    var s := Last(r);
    q := Extend(r, Advance(t));
    if LevelAt(bytes, s.capacity, s.th) == None {
      StillLive(s.blocks, id, Last(q).blocks[id]);
    } else {
      q := Marks(q, t, id, bytes);
    }
  }

  /** A whole allocation by a new thread, up to its handler call if it owes one. */
  lemma Allocated(r: Trace, t: Tid, size: nat, bytes: nat) returns (q: Trace, id: nat)
    requires Good(r) && Calm(Last(r), Last(r).th, Last(r).capacity, bytes) && t !in Last(r).threads
    requires 0 < size <= ISIZE_MAX && bytes + size <= USIZE_MAX
    ensures Good(q) && q.states[0] == r.states[0]
    ensures var s, f := Last(r), Last(q);
            var call := Fires(bytes + size, s.capacity, s.th, s.fired);
            && Calm(f, s.th, s.capacity, bytes + size) && f.calls == s.calls
            && f.fired == Marked(bytes + size, s.capacity, s.th, s.fired)
            && id < |f.blocks| && f.blocks[id].holder != Gone && |s.blocks| <= |f.blocks|
            && f.threads == s.threads[t := if call == None then Idle
                                           else if call == Some(Critical) then RunCritical(id, bytes + size)
                                           else RunWarn(id, bytes + size)]
  {
    hide Gate, Reaches, Sum, IsRun, NeverRearmed;
    var s := Last(r);
    id := |s.blocks|;
    q := Counted(r, t, size, bytes);
    if bytes + size >= Gate(s.capacity, s.th) {
      q := Checked(q, t, id, bytes + size);
    } else {
      GateSkips(bytes + size, s.capacity, s.capacity, s.th, s.fired);
    }
  }

  /** A handler call. */
  lemma HandlerRun(r: Trace, t: Tid) returns (q: Trace)
    requires Good(r) && t in Last(r).threads && (Last(r).threads[t].RunCritical? || Last(r).threads[t].RunWarn?)
    requires Last(r).threads[t].id < |Last(r).blocks|
    ensures Good(q) && q.states[0] == r.states[0]
    ensures var s, f := Last(r), Last(q);
            && f.calls == s.calls + [if s.threads[t].RunCritical? then Critical else Warn]
            && f.threads == s.threads[t := Idle] && |f.blocks| == |s.blocks|
  {
    hide Gate, Reaches, Sum;
    q := Extend(r, Advance(t));
  }

  ghost predicate LateRun(states: seq<State>, steps: seq<Step>, capacity: usize, th: Thresholds) {
    && IsRun(states, steps) && NeverRearmed(steps) && FixedCapacity(steps)
    && states[0].th == th && states[0].capacity == capacity
    && CriticalBeforeWarn(states[|steps|].calls)
  }

  /** The numbers of the scenario: `b` bytes are in the warn band and nothing below does
      anything; `c` bytes reach critical and nothing below does. */
  lemma LateNumbers(capacity: usize, th: Thresholds, b: nat, c: nat)
    requires 0 < capacity && LateWarnPossible(capacity, th)
    requires b == LeastReaching(capacity, th.warn) && c == LeastReaching(capacity, th.critical)
    ensures 0 < b < c <= USIZE_MAX
    ensures InWarnBand(b, capacity, th) && Reaches(c, capacity, th.critical)
    ensures forall n: nat :: 0 < n < b ==> !Reaches(n, capacity, th.warn)
    ensures forall n: nat :: 0 < n < c ==> !Reaches(n, capacity, th.critical)
  {
    hide Reaches;
    ReachesExact(b, capacity, th.critical);
    LeastReachingExact(b, capacity, th.warn);
    LeastReachingExact(b, capacity, th.critical);
    LeastReachingExact(c, capacity, th.critical);
    forall n: nat | 0 < n
      ensures Reaches(n, capacity, th.warn) <==> n >= b
      ensures Reaches(n, capacity, th.critical) <==> n >= c
    {
      LeastReachingExact(n, capacity, th.warn);
      LeastReachingExact(n, capacity, th.critical);
    }
  }

  /** Thread 1 wins the warn bit, is overtaken by thread 2, which wins and runs critical,
      and only then runs its handler. A layout is at most `isize::MAX` bytes, so threads 3
      and 4 help with very large counts. */
  lemma LateRunExists(capacity: usize, th: Thresholds) returns (r: Trace)
    requires 0 < capacity < USIZE_MAX && LateWarnPossible(capacity, th)
    ensures LateRun(r.states, r.steps, capacity, th)
  {
    hide Gate, Reaches, Sum, IsRun, NeverRearmed, LeastReaching, LateWarnPossible;
    var b, c := LeastReaching(capacity, th.warn), LeastReaching(capacity, th.critical);
    LateNumbers(capacity, th, b, c);
    r := Start(th, capacity);
    var first, second := Min(b, ISIZE_MAX), Min(c - b, ISIZE_MAX);
    var id := 0;
    if b > first { r, id := Allocated(r, 3, b - first, 0); }
    r, id := Allocated(r, 1, first, b - first);
    if c - b > second { r, id := Allocated(r, 4, c - second - b, b); }
    r, id := Allocated(r, 2, second, c - second);
    r := HandlerRun(r, 2);
    r := HandlerRun(r, 1);
    var calls := Last(r).calls;
    assert calls[0] == Critical && calls[1] == Warn;
  }

  ghost predicate HasLateRun(capacity: usize, th: Thresholds) {
    exists states: seq<State>, steps: seq<Step> :: LateRun(states, steps, capacity, th)
  }

  /** Exactly when the order of the handlers can fail. For a fixed bounded capacity, some
      run without `rearm` calls `on_warn` after `on_critical` if and only if the thresholds
      leave room for it: some byte count reaches warn and not critical, and some count
      reaches critical. Thresholds with critical at or below warn never do. */
  lemma HandlerOrderIff(capacity: usize, th: Thresholds)
    requires capacity < USIZE_MAX
    ensures HasLateRun(capacity, th) <==> LateWarnPossible(capacity, th)
    ensures HasLateRun(capacity, th) <==>
            && (exists b: nat :: 0 < b <= USIZE_MAX && InWarnBand(b, capacity, th))
            && Reaches(USIZE_MAX, capacity, th.critical)
    ensures th.critical <= th.warn ==> !HasLateRun(capacity, th)
  {
    hide Reaches, LateRun, LateWarnPossible, InWarnBand;
    LateWarnPossibleExact(capacity, th);
    InvertedNeverLate(capacity, th);
    if LateWarnPossible(capacity, th) {
      var r := LateRunExists(capacity, th);
      assert HasLateRun(capacity, th);
    }
    if HasLateRun(capacity, th) {
      var states: seq<State>, steps: seq<Step> :| LateRun(states, steps, capacity, th);
      LateRunIsCaused(states, steps, capacity, th);
    }
  }

  lemma LateRunIsCaused(states: seq<State>, steps: seq<Step>, capacity: usize, th: Thresholds)
    requires LateRun(states, steps, capacity, th)
    ensures exists b: nat :: 0 < b <= USIZE_MAX && InWarnBand(b, capacity, th)
    ensures Reaches(USIZE_MAX, capacity, th.critical)
  {
    hide Next, Enabled, Reaches, InWarnBand, Init;
    RunKeepsCaused(states, steps, |steps|);
    var calls := states[|steps|].calls;
    var i, j :| 0 <= i < j < |calls| && calls[i] == Critical && calls[j] == Warn;
    assert calls[i] in calls && calls[j] in calls;
  }

  lemma InvertedNeverLate(capacity: nat, th: Thresholds)
    ensures th.critical <= th.warn ==> !LateWarnPossible(capacity, th)
  {
    if th.critical <= th.warn { MulMonotone(capacity, th.critical, th.warn); }
  }

  /** The default thresholds allow it on as little as 100 bytes. */
  lemma WarnCanRunAfterCritical()
    ensures HasLateRun(100, Thresholds(75, 90))
  {
    hide HasLateRun;
    assert LateWarnPossible(100, Thresholds(75, 90));
    HandlerOrderIff(100, Thresholds(75, 90));
  }

  // ------------------------------------------------------------ the object

  /** `k` further steps of thread `t`, the others standing still. */
  ghost function Alone(s: State, t: Tid, k: nat): State {
    if k == 0 then s
    else
      var r := Alone(s, t, k - 1);
      if Enabled(r, Advance(t)) then Next(r, Advance(t)) else r
  }

  lemma AloneStep(s: State, t: Tid, k: nat)
    ensures Enabled(Alone(s, t, k), Advance(t)) ==>
              Alone(s, t, k + 1) == NextOf(Alone(s, t, k), t, PcOf(Alone(s, t, k), t))
  {
  }

  /** The wrapper with its counter, bitmap and precomputed gate as fields. Each method is
      one call as written, run without interruption; `machine` follows it step by step.
      `live` is the capacity the inner reports during the call. */
  class Wrapper {
    const th: Thresholds
    const capacity: usize
    const warnThresholdBytes: usize
    var allocatedBytes: usize
    var fired: Fired
    ghost var machine: State

    ghost predicate Mirrors()
      reads this
    {
      && warnThresholdBytes == Gate(capacity, th)
      && machine.th == th && machine.constructed == capacity
      && machine.allocatedBytes == allocatedBytes && machine.fired == fired
    }

    /** `with_thresholds`; `capacity` is `usize::MAX` for an inner without a bound. */
    constructor (th: Thresholds, capacity: usize)
      ensures Mirrors() && Init(machine) && this.th == th && this.capacity == capacity
    {
      this.th, this.capacity, warnThresholdBytes := th, capacity, Gate(capacity, th);
      allocatedBytes, fired := 0, Fired(false, false);
      machine := State(th, capacity, capacity, 0, Fired(false, false), [], map[], [], [], 0, 0);
    }

    /** The thread's next atomic access or handler call, on the machine's side. */
    ghost method Tick(t: Tid, start: State, k: nat)
      requires Enabled(machine, Advance(t)) && machine == Alone(start, t, k)
      modifies this`machine
      ensures machine == NextOf(old(machine), t, PcOf(old(machine), t)) == Alone(start, t, k + 1)
    {
      AloneStep(start, t, k);
      machine := NextOf(machine, t, PcOf(machine, t));
    }

    /** `check_and_fire`; `call` is the handler it calls, if any. */
    method CheckAndFire(newBytes: nat, live: usize, ghost t: Tid, ghost id: nat, ghost start: State, ghost n: nat)
      returns (call: Option<Level>, ghost m: nat)
      requires Mirrors() && machine == Alone(start, t, n) && id < |machine.blocks|
      requires PcOf(machine, t) == Checking(id, newBytes) && machine.capacity == live
      modifies this`fired, this`machine
      ensures Mirrors() && machine == Alone(start, t, m) && PcOf(machine, t).Idle?
      ensures call == Fires(newBytes, live, th, old(fired))
      ensures machine.calls == old(machine.calls) + AsLevels(call)
      ensures machine.blocks == old(machine.blocks)[id := old(machine.blocks[id]).(holder := Client)]
      ensures fired == Marked(newBytes, live, th, old(fired)) && machine.capacity == live
    {
      hide Alone, Sum, Gate;
      Tick(t, start, n);
      m := n + 1;
      call := None;
      if live == 0 {
        return;
      }
      var pct := Percent(newBytes, live);
      if pct >= th.critical {
        var prev := fired;
        fired := Fired(true, true);
        Tick(t, start, n + 1);
        m := n + 2;
        if !prev.critical {
          call := Some(Critical);
          Tick(t, start, n + 2);
          m := n + 3;
        }
      } else if pct >= th.warn {
        var prev := fired;
        fired := fired.(warn := true);
        Tick(t, start, n + 1);
        m := n + 2;
        if !prev.warn {
          call := Some(Warn);
          Tick(t, start, n + 2);
          m := n + 3;
        }
      }
    }

    /** `allocate`: `inner` is the size of the block the inner issued, after which it reports
        `live` bytes; `call` is the handler called, if any. */
    method Allocate(t: Tid, inner: Option<usize>, live: usize)
      returns (ok: bool, call: Option<Level>, ghost steps: nat)
      requires Mirrors() && capacity <= live
      requires Enabled(machine, if inner.Some? then InnerOk(t, inner.value) else InnerErr(t))
      modifies this
      ensures Mirrors() && PcOf(machine, t).Idle? && ok == inner.Some?
      ensures var first := if inner.Some? then InnerOk(t, inner.value) else InnerErr(t);
              machine == Alone(Next(Next(old(machine), Regrow(live)), first), t, steps)
      ensures machine.calls == old(machine.calls) + AsLevels(call)
      ensures if ok
              then var new_ := Min(old(allocatedBytes) + inner.value, USIZE_MAX);
                   && allocatedBytes == (old(allocatedBytes) + inner.value) % (USIZE_MAX + 1)
                   && call == (if new_ >= Gate(capacity, th) then Fires(new_, live, th, old(fired)) else None)
                   && fired == (if new_ >= Gate(capacity, th) then Marked(new_, live, th, old(fired)) else old(fired))
                   && machine.blocks == old(machine.blocks) + [Block(inner.value, Client, true)]
              else call == Some(Oom) && allocatedBytes == old(allocatedBytes) && fired == old(fired)
      ensures ok && capacity < USIZE_MAX ==>
                var new_ := Min(old(allocatedBytes) + inner.value, USIZE_MAX);
                call == Fires(new_, live, th, old(fired)) && fired == Marked(new_, live, th, old(fired))
    {
      hide Sum, Gate, LevelAt, Percent;
      ghost var id := |machine.blocks|;
      machine := Next(machine, Regrow(live));
      machine := Next(machine, if inner.Some? then InnerOk(t, inner.value) else InnerErr(t));
      ghost var start := machine;
      if inner == None {
        Tick(t, start, 0);
        return false, Some(Oom), 1;
      }
      var size := inner.value;
      var prev := allocatedBytes;
      allocatedBytes := (prev + size) % (USIZE_MAX + 1);
      var newBytes := Min(prev + size, USIZE_MAX);
      Tick(t, start, 0);
      if newBytes >= warnThresholdBytes {
        call, steps := CheckAndFire(newBytes, live, t, id, start, 1);
        return true, call, steps;
      }
      if capacity < USIZE_MAX { GateSkips(newBytes, capacity, live, th, fired); }
      return true, None, 1;
    }

    /** `deallocate` of the client's block `id`. */
    method Deallocate(t: Tid, size: usize, ghost id: nat) returns (ghost steps: nat)
      requires Mirrors() && Enabled(machine, StartFree(t, id)) && machine.blocks[id].size == size
      modifies this
      ensures Mirrors() && PcOf(machine, t).Idle? && fired == old(fired)
      ensures machine == Alone(Next(old(machine), StartFree(t, id)), t, steps)
      ensures allocatedBytes == (old(allocatedBytes) - size) % (USIZE_MAX + 1)
      ensures machine.blocks == old(machine.blocks)[id := Block(size, Gone, false)]
    {
      hide Sum, Gate, Reaches, LevelAt;
      allocatedBytes := (allocatedBytes - size) % (USIZE_MAX + 1);
      machine := Next(machine, StartFree(t, id));
      ghost var start := machine;
      Tick(t, start, 0);
      steps := 1;
    }

    /** `rearm`. */
    method RearmThresholds()
      requires Mirrors()
      modifies this
      ensures Mirrors() && machine == Next(old(machine), Rearm) && allocatedBytes == old(allocatedBytes)
    {
      fired := Fired(false, false);
      machine := Next(machine, Rearm);
    }
  }
}
