/** `Quarantine`: freed blocks wait in a ring before the inner allocator gets them. The
    ring's behaviour is a function of the frees so far, compared with a plain queue; the
    object runs on an array with a wrapping counter. */
module Quarantines {
  import opened Words

  /** The counter is a word: it wraps here. */
  const WRAP: nat := USIZE_MAX + 1

  datatype Ring<B> = Ring(slots: seq<Option<B>>, count: usize)

  datatype Freed<B> = Freed(ring: Ring<B>, evicted: Option<B>)

  function EmptyRing<B>(epochs: nat): Ring<B> { Ring(seq(epochs, _ => None), 0) }

  /** `deallocate`: the block takes the slot `count % EPOCHS`, whose previous occupant
      goes to the inner allocator. */
  function FreeInto<B>(r: Ring<B>, b: B): Freed<B>
    requires |r.slots| > 0
  {
    var idx := r.count % |r.slots|;
    Freed(Ring(r.slots[idx := Some(b)], (r.count + 1) % WRAP), r.slots[idx])
  }

  /** The ring after the given frees, first to last. */
  function After<B>(epochs: nat, frees: seq<B>): (r: Ring<B>)
    requires epochs > 0
    ensures |r.slots| == epochs
  {
    if frees == [] then EmptyRing(epochs)
    else FreeInto(After(epochs, frees[..|frees| - 1]), frees[|frees| - 1]).ring
  }

  /** The block the last of these frees evicts. */
  function Evicted<B>(epochs: nat, frees: seq<B>): Option<B>
    requires epochs > 0 && frees != []
  {
    FreeInto(After(epochs, frees[..|frees| - 1]), frees[|frees| - 1]).evicted
  }

  function AsSeq<B>(o: Option<B>): seq<B> { if o.Some? then [o.value] else [] }

  /** The calls made to the inner `deallocate`, in order. */
  function Forwarded<B>(epochs: nat, frees: seq<B>): seq<B>
    requires epochs > 0
  {
    if frees == [] then [] else Forwarded(epochs, frees[..|frees| - 1]) + AsSeq(Evicted(epochs, frees))
  }

  /** What the ring holds, in slot order. */
  function Contents<B>(slots: seq<Option<B>>): seq<B> {
    if slots == [] then [] else Contents(slots[..|slots| - 1]) + AsSeq(slots[|slots| - 1])
  }

  // ------------------------------------------------------------ residues

  lemma SameResidue(e: nat, i: nat, j: nat)
    requires i < j < i + e
    ensures i % e != j % e
  {
    if i % e == j % e {
      var k := j / e - i / e;
      assert j - i == e * k;
      if k >= 1 { MulMonotone(e, 1, k); } else { MulMonotone(e, k, 0); }
    }
  }

  lemma AddMultiple(r: nat, e: nat, t: nat)
    requires e > 0
    ensures (r + e * t) % e == r % e
  {
    assert r + e * t == e * (t + r / e) + r % e;
    DivModUnique(r + e * t, e, t + r / e, r % e);
  }

  lemma NestedMod(n: nat, m: nat, e: nat)
    requires e > 0 && m > 0 && m % e == 0
    ensures (n % m) % e == n % e
  {
    var q, k := n / m, m / e;
    assert n == m * q + n % m && m == e * k;
    assert (e * k) * q == e * (k * q);
    AddMultiple(n % m, e, k * q);
  }

  /** The slot of the `n`-th free, counting from 0. */
  function SlotOf(epochs: nat, n: nat): (slot: nat)
    requires epochs > 0
    ensures slot < epochs
  {
    (n % WRAP) % epochs
  }

  /** The counter does not disturb the ring position of the first `n` frees. */
  predicate Steady(epochs: nat, n: nat)
    requires epochs > 0
  {
    n <= WRAP || WRAP % epochs == 0
  }

  lemma SteadySlot(epochs: nat, n: nat, i: nat)
    requires epochs > 0 && Steady(epochs, n) && i < n
    ensures SlotOf(epochs, i) == i % epochs
  {
    if n <= WRAP {
      DivModUnique(i, WRAP, 0, i);
    } else {
      NestedMod(i, WRAP, epochs);
    }
  }

  lemma {:induction false} CountAfter<B>(epochs: nat, frees: seq<B>)
    requires epochs > 0
    ensures After(epochs, frees).count == |frees| % WRAP
  {
    if frees != [] {
      CountAfter(epochs, frees[..|frees| - 1]);
      Successor(|frees| - 1);
    }
  }

  lemma Successor(n: nat)
    ensures (n % WRAP + 1) % WRAP == (n + 1) % WRAP
  {
  }

  // ------------------------------------------------------------ what a slot holds

  /** A slot holds the latest block freed into it. */
  lemma {:induction false} SlotHolds<B>(epochs: nat, frees: seq<B>, i: nat)
    requires epochs > 0 && i < |frees|
    requires forall k :: i < k < |frees| ==> SlotOf(epochs, k) != SlotOf(epochs, i)
    ensures After(epochs, frees).slots[SlotOf(epochs, i)] == Some(frees[i])
  {
    hide SlotOf, After, Evicted;
    var n := |frees| - 1;
    FreedAt(epochs, frees);
    if i < n { SlotHolds(epochs, frees[..n], i); }
  }

  lemma {:induction false} SlotEmpty<B>(epochs: nat, frees: seq<B>, j: nat)
    requires epochs > 0 && j < epochs
    requires forall k :: 0 <= k < |frees| ==> SlotOf(epochs, k) != j
    ensures After(epochs, frees).slots[j] == None
  {
    hide SlotOf, Evicted;
    if frees != [] {
      FreedAt(epochs, frees);
      SlotEmpty(epochs, frees[..|frees| - 1], j);
    }
  }

  lemma FreedAt<B>(epochs: nat, frees: seq<B>)
    requires epochs > 0 && frees != []
    ensures var n := |frees| - 1;
            var before, at := After(epochs, frees[..n]), SlotOf(epochs, n);
            && at < epochs
            && After(epochs, frees).slots == before.slots[at := Some(frees[n])]
            && Evicted(epochs, frees) == before.slots[at]
  {
    CountAfter(epochs, frees[..|frees| - 1]);
  }

  /** While the counter is steady, a free evicts the block freed `epochs` frees earlier. */
  lemma SteadyEviction<B>(epochs: nat, frees: seq<B>)
    requires epochs > 0 && frees != [] && Steady(epochs, |frees|)
    ensures var n := |frees| - 1;
            Evicted(epochs, frees) == if n < epochs then None else Some(frees[n - epochs])
  {
    hide SlotOf, After, Evicted;
    var n := |frees| - 1;
    var before := frees[..n];
    FreedAt(epochs, frees);
    SteadySlot(epochs, |frees|, n);
    forall k | n - epochs < k < n && 0 <= k
      ensures SlotOf(epochs, k) != SlotOf(epochs, n)
    {
      SteadySlot(epochs, |frees|, k);
      SameResidue(epochs, k, n);
    }
    if n < epochs {
      SlotEmpty(epochs, before, SlotOf(epochs, n));
    } else {
      SteadySlot(epochs, |frees|, n - epochs);
      ModMinus(n, epochs);
      SlotHolds(epochs, before, n - epochs);
    }
  }

  // ------------------------------------------------------------ against a queue

  /** The blocks a queue of that depth has forwarded after the given frees. */
  function QueueForwarded<B>(epochs: nat, frees: seq<B>): seq<B> { frees[..Max(0, |frees| - epochs)] }

  /** The ring forwards exactly what a queue forwards, in free order: block `n` at free
      `n + epochs`. */
  lemma {:induction false} RingIsQueue<B>(epochs: nat, frees: seq<B>)
    requires epochs > 0 && Steady(epochs, |frees|)
    ensures Forwarded(epochs, frees) == QueueForwarded(epochs, frees)
  {
    hide Evicted;
    if frees != [] {
      RingIsQueue(epochs, frees[..|frees| - 1]);
      SteadyEviction(epochs, frees);
    }
  }

  /** The first free after the counter has wrapped, when `epochs` does not divide the word:
      it evicts a block freed only `WRAP % epochs` frees earlier. */
  lemma WrapEvictsEarly<B>(epochs: nat, frees: seq<B>)
    requires 0 < epochs && WRAP % epochs != 0 && |frees| == WRAP + 1
    ensures 0 < WRAP % epochs < epochs
    ensures Evicted(epochs, frees) == Some(frees[WRAP - WRAP % epochs])
  {
    hide SlotOf, After, Evicted;
    var i := WRAP - WRAP % epochs;
    var before := frees[..WRAP];
    FreedAt(epochs, frees);
    assert SlotOf(epochs, WRAP) == 0 by { WrapSlot(epochs); }
    MultipleResidue(epochs);
    SteadySlot(epochs, WRAP, i);
    forall k | i < k < WRAP
      ensures SlotOf(epochs, k) != SlotOf(epochs, i)
    {
      SteadySlot(epochs, WRAP, k);
      SameResidue(epochs, i, k);
    }
    SlotHolds(epochs, before, i);
  }

  lemma WrapSlot(epochs: nat)
    requires epochs > 0
    ensures SlotOf(epochs, WRAP) == 0
  {
    DivModUnique(0, epochs, 0, 0);
  }

  lemma MultipleResidue(epochs: nat)
    requires 0 < epochs
    ensures WRAP % epochs <= WRAP && (WRAP - WRAP % epochs) % epochs == 0
  {
    var q := WRAP / epochs;
    assert WRAP == epochs * q + WRAP % epochs;
    MulMonotone(epochs, 0, q);
    DivModUnique(WRAP - WRAP % epochs, epochs, q, 0);
  }

  lemma {:induction false} ForwardedGrows<B>(epochs: nat, frees: seq<B>, n: nat)
    requires epochs > 0 && n <= |frees|
    ensures Forwarded(epochs, frees[..n]) <= Forwarded(epochs, frees)
  {
    hide Evicted;
    if n < |frees| {
      ForwardedGrows(epochs, frees[..|frees| - 1], n);
      assert frees[..|frees| - 1][..n] == frees[..n];
    } else {
      assert frees[..n] == frees;
    }
  }

  /** What the `Deallocator` contract asks of callers: no block is freed again while it
      still waits here. */
  ghost predicate NoDoubleFree<B>(epochs: nat, frees: seq<B>)
    requires epochs > 0
  {
    forall n :: 0 <= n < |frees| ==> Some(frees[n]) !in After(epochs, frees[..n]).slots
  }

  lemma WrapBreaksQueue<B>(epochs: nat, frees: seq<B>)
    requires 0 < epochs <= USIZE_MAX && WRAP % epochs != 0 && |frees| > WRAP
    requires frees[WRAP - WRAP % epochs] != frees[WRAP - epochs]
    ensures Forwarded(epochs, frees) != QueueForwarded(epochs, frees)
  {
    hide Forwarded, Evicted;
    var upTo, first := frees[..WRAP], frees[..WRAP + 1];
    RingIsQueue(epochs, upTo);
    WrapEvictsEarly(epochs, first);
    assert first[..WRAP] == upTo;
    ForwardedStep(epochs, first);
    ForwardedGrows(epochs, frees, WRAP + 1);
    assert Forwarded(epochs, first)[WRAP - epochs] == frees[WRAP - WRAP % epochs];
    assert Forwarded(epochs, frees)[WRAP - epochs] == Forwarded(epochs, first)[WRAP - epochs];
  }

  lemma FreedStep<B>(epochs: nat, frees: seq<B>)
    requires epochs > 0 && frees != []
    ensures var r := FreeInto(After(epochs, frees[..|frees| - 1]), frees[|frees| - 1]);
            && After(epochs, frees) == r.ring && Evicted(epochs, frees) == r.evicted
            && Forwarded(epochs, frees) == Forwarded(epochs, frees[..|frees| - 1]) + AsSeq(r.evicted)
  {
  }

  lemma ForwardedStep<B>(epochs: nat, frees: seq<B>)
    requires epochs > 0 && frees != []
    ensures Forwarded(epochs, frees) == Forwarded(epochs, frees[..|frees| - 1]) + AsSeq(Evicted(epochs, frees))
  {
  }

  /** When the queue would evict the block of `WRAP - epochs`, it still waits: so the block
      the ring evicts instead, freed later, is another one. */
  lemma WrapBlocksDiffer<B>(epochs: nat, frees: seq<B>)
    requires 0 < epochs <= USIZE_MAX && WRAP % epochs != 0 && |frees| > WRAP && NoDoubleFree(epochs, frees)
    ensures WRAP % epochs < epochs && frees[WRAP - WRAP % epochs] != frees[WRAP - epochs]
  {
    hide SlotOf, After;
    var i, waits := WRAP - WRAP % epochs, WRAP - epochs;
    WrapResidueSmall(epochs);
    var before := frees[..i];
    forall k | waits < k < i
      ensures SlotOf(epochs, k) != SlotOf(epochs, waits)
    {
      SteadySlot(epochs, WRAP, k);
      SteadySlot(epochs, WRAP, waits);
      SameResidue(epochs, waits, k);
    }
    SlotHolds(epochs, before, waits);
    assert Some(frees[i]) !in After(epochs, before).slots;
  }

  /** Exactly when the ring is a queue, for every sequence of frees that obeys the contract:
      the counter has not wrapped, or the ring length divides 2^64. Otherwise the wrap is
      never harmless. */
  lemma QueueIff<B>(epochs: nat, frees: seq<B>)
    requires 0 < epochs <= USIZE_MAX && NoDoubleFree(epochs, frees)
    ensures Forwarded(epochs, frees) == QueueForwarded(epochs, frees) <==> |frees| <= WRAP || WRAP % epochs == 0
  {
    hide Forwarded, QueueForwarded;
    if Steady(epochs, |frees|) {
      RingIsQueue(epochs, frees);
    } else {
      WrapBlocksDiffer(epochs, frees);
      WrapBreaksQueue(epochs, frees);
    }
  }

  lemma {:induction false} OnlyFreedWait<B>(epochs: nat, frees: seq<B>, j: nat)
    requires epochs > 0 && j < epochs && After(epochs, frees).slots[j].Some?
    ensures After(epochs, frees).slots[j].value in frees
  {
    hide SlotOf, Evicted;
    if frees != [] {
      var n := |frees| - 1;
      FreedAt(epochs, frees);
      if j != SlotOf(epochs, n) {
        OnlyFreedWait(epochs, frees[..n], j);
        assert After(epochs, frees).slots[j].value in frees[..n];
      }
    }
  }

  /** Obedient sequences exist at every length, those past the wrap included: any in which
      no block is freed twice is one. */
  lemma DistinctIsObedient<B>(epochs: nat, frees: seq<B>)
    requires epochs > 0 && forall i, j :: 0 <= i < j < |frees| ==> frees[i] != frees[j]
    ensures NoDoubleFree(epochs, frees)
  {
    hide After;
    forall n | 0 <= n < |frees|
      ensures Some(frees[n]) !in After(epochs, frees[..n]).slots
    {
      var slots := After(epochs, frees[..n]).slots;
      if Some(frees[n]) in slots {
        var j :| 0 <= j < epochs && slots[j] == Some(frees[n]);
        OnlyFreedWait(epochs, frees[..n], j);
        assert false;
      }
    }
  }

  /** So every ring length that does not divide 2^64 fails obedient callers: blocks numbered
      in the order of their frees, one more than the counter can count. */
  lemma QueueFailsPastWrap(epochs: nat, n: nat)
    requires 0 < epochs <= USIZE_MAX && WRAP % epochs != 0 && n > WRAP
    ensures exists frees: seq<nat> ::
              |frees| == n && NoDoubleFree(epochs, frees) && Forwarded(epochs, frees) != QueueForwarded(epochs, frees)
  {
    hide Forwarded, QueueForwarded, NoDoubleFree;
    var frees: seq<nat> := seq(n, i => i);
    DistinctIsObedient(epochs, frees);
    QueueIff(epochs, frees);
  }

  lemma WrapResidueSmall(epochs: nat)
    requires epochs > 0
    ensures WRAP % epochs < epochs
  {
  }

  // ------------------------------------------------------------ how long a block waits

  /** For how many further frees the `n`-th block waits: `epochs` of them, except for blocks
      freed within the last `epochs` frees before the counter wraps. With `odd` the
      remainder of 2^64 by `epochs`, the last `odd` of those wait only `odd` frees and the
      ones before them `epochs + odd`. */
  function Wait(epochs: nat, n: nat): nat
    requires epochs > 0
  {
    var at, odd := n % WRAP, WRAP % epochs;
    if at + epochs < WRAP then epochs
    else if at >= WRAP - odd then odd
    else epochs + odd
  }

  /** No wait is as long as twice the ring, and none is zero. */
  lemma WaitBounded(epochs: nat, n: nat)
    requires 0 < epochs <= USIZE_MAX
    ensures 0 < Wait(epochs, n) < 2 * epochs
    ensures Wait(epochs, n) == epochs || n % WRAP + epochs >= WRAP
    ensures n % WRAP + Wait(epochs, n) < WRAP + epochs
  {
    WrapResidueSmall(epochs);
  }

  /** The documented delay, at most `epochs` further frees, holds for every block if and only
      if the ring length divides 2^64. */
  lemma WaitIsEpochsIff(epochs: nat)
    requires 0 < epochs <= USIZE_MAX
    ensures (forall n: nat :: Wait(epochs, n) <= epochs) <==> WRAP % epochs == 0
  {
    var odd := WRAP % epochs;
    WrapResidueSmall(epochs);
    if odd != 0 {
      var n := WRAP - epochs;
      DivModUnique(n, WRAP, 0, n);
      assert Wait(epochs, n) == epochs + odd;
    } else {
      forall n: nat
        ensures Wait(epochs, n) <= epochs
      {
        DivModUnique(n % WRAP, WRAP, 0, n % WRAP);
      }
    }
  }

  /** The counter `d` frees after the value `at`, less than one lap later. */
  lemma LapOn(n: nat, d: nat)
    requires n % WRAP + d < 2 * WRAP
    ensures (n + d) % WRAP == if n % WRAP + d < WRAP then n % WRAP + d else n % WRAP + d - WRAP
  {
    var q, at := n / WRAP, n % WRAP;
    assert n == WRAP * q + at;
    if at + d < WRAP {
      DivModUnique(n + d, WRAP, q, at + d);
    } else {
      assert WRAP * (q + 1) == WRAP * q + WRAP;
      DivModUnique(n + d, WRAP, q + 1, at + d - WRAP);
    }
  }

  lemma SmallResidue(x: nat, e: nat)
    requires x < e
    ensures x % e == x
  {
    DivModUnique(x, e, 0, x);
  }

  /** Near the wrap, the residue of a counter value is its distance from the multiple of
      `epochs` below it. */
  lemma NearWrapResidue(epochs: nat, at: nat)
    requires 0 < epochs <= USIZE_MAX && at < WRAP <= at + epochs
    ensures var odd := WRAP % epochs;
            at % epochs == if at >= WRAP - odd then at - (WRAP - odd) else at - (WRAP - odd) + epochs
  {
    var odd, q := WRAP % epochs, WRAP / epochs;
    WrapResidueSmall(epochs);
    assert WRAP - odd == epochs * q;
    if at >= WRAP - odd {
      DivModUnique(at, epochs, q, at - (WRAP - odd));
    } else {
      assert q > 0 by { QuotientPositive(epochs); }
      assert epochs * (q - 1) == epochs * q - epochs;
      DivModUnique(at, epochs, q - 1, at - (WRAP - odd) + epochs);
    }
  }

  lemma QuotientPositive(epochs: nat)
    requires 0 < epochs <= USIZE_MAX
    ensures WRAP / epochs > 0
  {
    var q := WRAP / epochs;
    assert WRAP == epochs * q + WRAP % epochs;
    if q <= 0 { MulMonotone(epochs, q, 0); }
  }

  /** The slot is free of later blocks for exactly that many frees. */
  lemma SlotNextUsed(epochs: nat, n: nat, d: nat)
    requires 0 < epochs <= USIZE_MAX && 0 < d <= Wait(epochs, n)
    ensures SlotOf(epochs, n + d) == SlotOf(epochs, n) <==> d == Wait(epochs, n)
  {
    hide Wait;
    WaitBounded(epochs, n);
    WrapResidueSmall(epochs);
    var at := n % WRAP;
    LapOn(n, d);
    if at + d < WRAP {
      SameLap(epochs, n, d);
    } else {
      NextLap(epochs, n, d);
    }
  }

  lemma SameLap(epochs: nat, n: nat, d: nat)
    requires 0 < epochs <= USIZE_MAX && 0 < d <= Wait(epochs, n) && n % WRAP + d < WRAP
    ensures (n % WRAP + d) % epochs == (n % WRAP) % epochs <==> d == Wait(epochs, n)
  {
    var at := n % WRAP;
    WrapResidueSmall(epochs);
    if d < epochs {
      SameResidue(epochs, at, at + d);
    } else if d == epochs {
      ModMinus(at + d, epochs);
    }
  }

  lemma NextLap(epochs: nat, n: nat, d: nat)
    requires 0 < epochs <= USIZE_MAX && 0 < d <= Wait(epochs, n) && n % WRAP + d >= WRAP
    ensures n % WRAP + d < 2 * WRAP
    ensures (n % WRAP + d - WRAP) % epochs == (n % WRAP) % epochs <==> d == Wait(epochs, n)
  {
    var at := n % WRAP;
    WrapResidueSmall(epochs);
    NearWrapResidue(epochs, at);
    SmallResidue(at + d - WRAP, epochs);
  }

  /** Wrapped or not, every block waits in its slot exactly `Wait` frees, and the last of
      them evicts it. */
  lemma BlockWaits<B>(epochs: nat, frees: seq<B>, n: nat)
    requires 0 < epochs <= USIZE_MAX && n < |frees| <= n + Wait(epochs, n) + 1
    ensures |frees| <= n + Wait(epochs, n) ==> After(epochs, frees).slots[SlotOf(epochs, n)] == Some(frees[n])
    ensures |frees| == n + Wait(epochs, n) + 1 ==> Evicted(epochs, frees) == Some(frees[n])
  {
    hide SlotOf, Wait, After, Evicted;
    var wait := Wait(epochs, n);
    WaitBounded(epochs, n);
    forall k | n < k < n + wait
      ensures SlotOf(epochs, k) != SlotOf(epochs, n)
    {
      SlotNextUsed(epochs, n, k - n);
    }
    if |frees| <= n + wait {
      SlotHolds(epochs, frees, n);
    } else {
      SlotNextUsed(epochs, n, wait);
      SlotHolds(epochs, frees[..n + wait], n);
      FreedAt(epochs, frees);
    }
  }

  // ------------------------------------------------------------ conservation

  lemma ContentsStep<B>(slots: seq<Option<B>>)
    requires slots != []
    ensures multiset(Contents(slots)) ==
            multiset(Contents(slots[..|slots| - 1])) + multiset(AsSeq(slots[|slots| - 1]))
  {
  }

  lemma {:induction false} ContentsUpdate<B>(slots: seq<Option<B>>, i: nat, x: Option<B>)
    requires i < |slots|
    ensures multiset(Contents(slots[i := x])) + multiset(AsSeq(slots[i])) ==
            multiset(Contents(slots)) + multiset(AsSeq(x))
  {
    hide Contents, AsSeq;
    var n := |slots| - 1;
    ContentsStep(slots);
    ContentsStep(slots[i := x]);
    if i == n {
      assert slots[i := x][..n] == slots[..n];
    } else {
      assert slots[i := x][..n] == slots[..n][i := x];
      ContentsUpdate(slots[..n], i, x);
      Balance(multiset(Contents(slots[..n][i := x])), multiset(AsSeq(slots[i])),
              multiset(Contents(slots[..n])), multiset(AsSeq(x)), multiset(AsSeq(slots[n])));
    }
  }

  lemma Balance<B>(a: multiset<B>, b: multiset<B>, c: multiset<B>, d: multiset<B>, e: multiset<B>)
    requires a + b == c + d
    ensures (a + e) + b == (c + e) + d
  {
    assert (a + e) + b == (a + b) + e;
    assert (c + e) + d == (c + d) + e;
  }

  lemma {:induction false} ContentsEmpty<B>(n: nat)
    ensures Contents<B>(seq(n, _ => None)) == []
  {
    if n > 0 {
      assert seq(n, _ => None)[..n - 1] == seq<Option<B>>(n - 1, _ => None);
      ContentsEmpty<B>(n - 1);
    }
  }

  lemma AsSeqOf<B>(b: B)
    ensures AsSeq(Some(b)) == [b]
  {
  }

  /** Wrapped or not, no block is lost or handed over twice: what has been forwarded and
      what still waits make up exactly what was freed. */
  lemma {:induction false} NothingLost<B>(epochs: nat, frees: seq<B>)
    requires epochs > 0
    ensures multiset(Forwarded(epochs, frees)) + multiset(Contents(After(epochs, frees).slots)) == multiset(frees)
  {
    hide Evicted, Contents, AsSeq;
    if frees == [] {
      ContentsEmpty<B>(epochs);
    } else {
      hide After, Forwarded, SlotOf;
      var n := |frees| - 1;
      var before := After(epochs, frees[..n]);
      NothingLost(epochs, frees[..n]);
      FreedAt(epochs, frees);
      ForwardedStep(epochs, frees);
      AsSeqOf(frees[n]);
      ContentsUpdate(before.slots, SlotOf(epochs, n), Some(frees[n]));
      assert frees == frees[..n] + [frees[n]];
      HandOver(Forwarded(epochs, frees[..n]), AsSeq(before.slots[SlotOf(epochs, n)]),
               Contents(before.slots), Contents(After(epochs, frees).slots), frees[..n], frees[n]);
    }
  }

  lemma HandOver<B>(sent: seq<B>, evicted: seq<B>, held: seq<B>, holds: seq<B>, frees: seq<B>, b: B)
    requires multiset(sent) + multiset(held) == multiset(frees)
    requires multiset(holds) + multiset(evicted) == multiset(held) + multiset{b}
    ensures multiset(sent + evicted) + multiset(holds) == multiset(frees + [b])
  {
    assert multiset(sent + evicted) + multiset(holds) == multiset(sent) + (multiset(holds) + multiset(evicted));
    assert multiset(frees + [b]) == (multiset(sent) + multiset(held)) + multiset{b};
  }

  // ------------------------------------------------------------ the object

  class Quarantine<B(!new)> {
    const epochs: nat
    const ring: array<Option<B>>
    var count: usize
    /** The blocks freed through this object and the calls it made to the inner. */
    ghost var freed: seq<B>
    ghost var forwarded: seq<B>

    ghost predicate Valid()
      reads this, ring
    {
      && 0 < epochs == ring.Length
      && Ring(ring[..], count) == After(epochs, freed)
      && forwarded == Forwarded(epochs, freed)
    }

    constructor (epochs: nat)
      requires epochs > 0
      ensures Valid() && this.epochs == epochs && freed == [] && forwarded == [] && fresh(ring)
    {
      this.epochs := epochs;
      ring := new Option<B>[epochs](_ => None);
      count := 0;
      freed, forwarded := [], [];
      new;
      assert ring[..] == EmptyRing<B>(epochs).slots;
    }

    /** `toInner` is the call made to the inner's `deallocate`, if any. The counter and the
        ring are final before that call, so an inner that panics in it leaks that one
        block and leaves the object as described here. */
    method Deallocate(b: B) returns (toInner: Option<B>)
      requires Valid()
      modifies this, ring
      ensures Valid() && freed == old(freed) + [b]
      ensures toInner == Evicted(epochs, freed) && forwarded == old(forwarded) + AsSeq(toInner)
      ensures Steady(epochs, |freed|) ==> forwarded == QueueForwarded(epochs, freed)
      ensures multiset(forwarded) + multiset(Contents(ring[..])) == multiset(freed)
    {
      hide Contents, AsSeq, After, Forwarded, Steady, QueueForwarded, Evicted;
      var cnt := count;
      var idx := cnt % epochs;
      count := (cnt + 1) % WRAP;
      toInner := ring[idx];
      ring[idx] := Some(b);
      freed := freed + [b];
      forwarded := forwarded + AsSeq(toInner);
      assert freed[..|freed| - 1] == old(freed);
      FreedStep(epochs, freed);
      if Steady(epochs, |freed|) { RingIsQueue(epochs, freed); }
      NothingLost(epochs, freed);
    }

    /** `Drop`: hand over every waiting block, slot by slot. `panicAt` is the number of the
        call in which the inner panics, if it does: the loop stops there and the blocks
        not yet reached are leaked, never handed over twice. */
    method Drop(panicAt: Option<nat>) returns (drained: seq<B>)
      requires Valid()
      modifies ring
      ensures drained == DrainedBy(old(ring[..]), panicAt)
      ensures drained <= Contents(old(ring[..]))
      ensures |drained| == if panicAt.Some? then Min(panicAt.value + 1, |Contents(old(ring[..]))|)
                           else |Contents(old(ring[..]))|
      ensures panicAt == None ==> forall i :: 0 <= i < epochs ==> ring[i] == None
      ensures panicAt == None ==> multiset(forwarded + drained) == multiset(freed)
      ensures multiset(forwarded + drained) <= multiset(freed)
    {
      hide Contents, AsSeq, After, Forwarded, DrainedBy;
      ghost var slots := ring[..];
      DrainedMeans(slots, panicAt);
      drained := [];
      ContentsNone(slots[..0]);
      for i := 0 to epochs
        invariant drained == Contents(slots[..i])
        invariant forall k :: 0 <= k < epochs ==> ring[k] == if k < i then None else slots[k]
        invariant panicAt.Some? ==> |drained| <= panicAt.value
      {
        var taken := ring[i];
        ring[i] := None;
        DrainStep(slots, i);
        if taken.Some? {
          drained := drained + [taken.value];
          if panicAt == Some(|drained| - 1) {
            DrainStops(epochs, freed, slots, i + 1, panicAt);
            return;
          }
        }
      }
      DrainStops(epochs, freed, slots, epochs, panicAt);
    }
  }

  /** The calls a drop makes: every waiting block in slot order, or those up to and
      including the one in which the inner panics. */
  function DrainedBy<B>(slots: seq<Option<B>>, panicAt: Option<nat>): seq<B> {
    if panicAt.Some? && panicAt.value < |Contents(slots)| then Contents(slots)[..panicAt.value + 1]
    else Contents(slots)
  }

  lemma DrainedMeans<B>(slots: seq<Option<B>>, panicAt: Option<nat>)
    ensures DrainedBy(slots, panicAt) <= Contents(slots)
    ensures |DrainedBy(slots, panicAt)| ==
            if panicAt.Some? then Min(panicAt.value + 1, |Contents(slots)|) else |Contents(slots)|
  {
    hide Contents;
  }

  lemma DrainStops<B>(epochs: nat, freed: seq<B>, slots: seq<Option<B>>, n: nat, panicAt: Option<nat>)
    requires epochs > 0 && slots == After(epochs, freed).slots && n <= |slots|
    requires var d := Contents(slots[..n]);
             if panicAt.Some? && panicAt.value == |d| - 1 then true
             else n == |slots| && (panicAt.Some? ==> |d| <= panicAt.value)
    ensures var d := Contents(slots[..n]);
            && d == DrainedBy(slots, panicAt)
            && multiset(Forwarded(epochs, freed) + d) <= multiset(freed)
            && (panicAt == None ==> multiset(Forwarded(epochs, freed) + d) == multiset(freed))
  {
    hide Contents, After, Forwarded;
    ContentsPrefix(slots, n);
    assert n == |slots| ==> slots[..n] == slots;
    Drained(epochs, freed, slots, Contents(slots[..n]));
  }

  /** Handing over the ring in slot order, completely or in part, on top of what has been
      forwarded already. */
  lemma Drained<B>(epochs: nat, freed: seq<B>, slots: seq<Option<B>>, drained: seq<B>)
    requires epochs > 0 && slots == After(epochs, freed).slots && drained <= Contents(slots)
    ensures multiset(Forwarded(epochs, freed) + drained) <= multiset(freed)
    ensures drained == Contents(slots) ==> multiset(Forwarded(epochs, freed) + drained) == multiset(freed)
  {
    hide Contents, After, Forwarded;
    NothingLost(epochs, freed);
    PrefixMultiset(drained, Contents(slots));
  }

  lemma ContentsNone<B>(slots: seq<Option<B>>)
    requires slots == []
    ensures Contents(slots) == []
  {
  }

  lemma DrainStep<B>(slots: seq<Option<B>>, i: nat)
    requires i < |slots|
    ensures Contents(slots[..i + 1]) ==
            if slots[i].Some? then Contents(slots[..i]) + [slots[i].value] else Contents(slots[..i])
  {
    assert slots[..i + 1][..i] == slots[..i];
  }

  lemma {:induction false} ContentsPrefix<B>(slots: seq<Option<B>>, n: nat)
    requires n <= |slots|
    ensures Contents(slots[..n]) <= Contents(slots)
  {
    if n < |slots| {
      ContentsPrefix(slots[..|slots| - 1], n);
      assert slots[..|slots| - 1][..n] == slots[..n];
    } else {
      assert slots[..n] == slots;
    }
  }

  lemma PrefixMultiset<B>(s: seq<B>, t: seq<B>)
    requires s <= t
    ensures multiset(s) <= multiset(t)
  {
    assert t == s + t[|s|..];
  }
}
