/** `CacheJitter`: each block is shifted by a random number of cache lines, recorded in a
    keyed header just before the client's bytes. */
module CacheJitters {
  import opened Words
  import opened RawBytes
  import opened Layouts
  import opened Guards

  // ------------------------------------------------------------ the generator

  /** One xorshift64 step. */
  function NextRng(x: bv64): bv64 {
    Shift3(Shift2(Shift1(x)))
  }

  function Shift1(x: bv64): bv64 { x ^ (x << 13) }

  function Shift2(x: bv64): bv64 { x ^ (x >> 7) }

  function Shift3(x: bv64): bv64 { x ^ (x << 17) }

  lemma Shift1NonZero(x: bv64)
    requires x != 0
    ensures Shift1(x) != 0
  {
  }

  lemma Shift2NonZero(x: bv64)
    requires x != 0
    ensures Shift2(x) != 0
  {
  }

  lemma Shift3NonZero(x: bv64)
    requires x != 0
    ensures Shift3(x) != 0
  {
  }

  function RngAfter(seed: bv64, n: nat): bv64 {
    if n == 0 then seed else NextRng(RngAfter(seed, n - 1))
  }

  /** `with_params` replaces a zero seed. */
  function SeedOf(seed: bv64): (r: bv64)
    ensures r != 0 && (seed != 0 ==> r == seed)
  {
    if seed == 0 then 0x9E37_79B9_7F4A_7C15 else seed
  }

  /** The state is never zero, after any number of steps, whatever seed was supplied. */
  lemma {:induction false} RngNeverZero(seed: bv64, n: nat)
    ensures RngAfter(SeedOf(seed), n) != 0
  {
    hide NextRng;
    if n > 0 {
      RngNeverZero(seed, n - 1);
      RngStaysNonZero(RngAfter(SeedOf(seed), n - 1));
    }
  }

  /** The first outputs for seed 1 and for the seed that replaces zero. */
  lemma RngReference()
    ensures NextRng(SeedOf(1)) == 0x4082_2041
    ensures NextRng(SeedOf(0)) == 0xDC1B_77AE_0BF3_4DAD
  {
  }

  /** The generator's output as a number. */
  function Draw(x: bv64): (d: usize)
    ensures d as bv64 == x
  {
    DrawIsWord(x);
    x as int
  }

  lemma DrawIsWord(x: bv64)
    ensures 0 <= x as int <= USIZE_MAX
  {
  }

  // ------------------------------------------------------------ parameters

  const MAX_ASSOCIATIVITY: nat := 0xFFFF

  /** `mix` is `header_mix` under this instance's key; nothing depends on its values. */
  datatype Jitter = Jitter(line: nat, assoc: nat, mix: (usize, usize) -> usize)

  /** `with_params`, apart from the generator's state. */
  function WithParams(line: usize, assoc: usize, mix: (usize, usize) -> usize): Option<Jitter> {
    if !IsPow2(line) || line < 8 then None
    else if assoc == 0 || assoc > MAX_ASSOCIATIVITY then None
    else if CheckedMul(line, assoc) == None then None
    else Some(Jitter(line, assoc, mix))
  }

  predicate Accepted(j: Jitter) {
    && IsPow2(j.line) && 8 <= j.line && 0 < j.assoc <= MAX_ASSOCIATIVITY
    && j.line * j.assoc <= USIZE_MAX
  }

  function MaxDisplacement(j: Jitter): nat
    requires j.assoc > 0
  {
    (j.assoc - 1) * j.line
  }

  function Prefix(j: Jitter): nat
    requires j.assoc > 0
  {
    j.line + MaxDisplacement(j)
  }

  /** For accepted parameters neither product nor sum overflows: the prefix is
      `line * associativity`, a word. */
  lemma PrefixExact(line: usize, assoc: usize, mix: (usize, usize) -> usize)
    ensures WithParams(line, assoc, mix).Some? <==> Accepted(Jitter(line, assoc, mix))
    ensures WithParams(line, assoc, mix).Some? ==>
              var j := WithParams(line, assoc, mix).value;
              && j == Jitter(line, assoc, mix)
              && MaxDisplacement(j) < Prefix(j) == line * assoc <= USIZE_MAX
  {
    hide IsPow2;
    if assoc > 0 { assert (assoc - 1) * line + line == line * assoc; }
  }

  /** `next_displacement` in lines: the multiply-shift reduction of a draw. */
  function Lines(j: Jitter, draw: usize): nat { (draw * j.assoc) / (USIZE_MAX + 1) }

  /** `next_displacement`, from the generator's new state. */
  function Displacement(j: Jitter, rng: bv64): nat { Lines(j, Draw(rng)) * j.line }

  lemma QuotientBelow(p: nat, m: nat, n: nat)
    requires m > 0 && p < m * n
    ensures p / m < n
  {
    if p / m >= n { MulMonotone(m, n, p / m); }
  }

  /** Whatever is drawn, the displacement is a whole number of lines in the window. */
  lemma LinesInWindow(j: Jitter, draw: usize)
    requires j.assoc > 0
    ensures Lines(j, draw) < j.assoc
    ensures Lines(j, draw) * j.line <= MaxDisplacement(j)
  {
    MulMonotone(j.assoc, draw, USIZE_MAX);
    assert draw * j.assoc < (USIZE_MAX + 1) * j.assoc;
    QuotientBelow(draw * j.assoc, USIZE_MAX + 1, j.assoc);
    MulMonotone(j.line, Lines(j, draw), j.assoc - 1);
  }

  /** The first draw that yields `k` lines: the least multiple of `assoc` at or above the
      `k`-th share of the draws. */
  function FirstDraw(j: Jitter, k: nat): nat
    requires j.assoc > 0
  {
    CeilQuotient(k * (USIZE_MAX + 1), j.assoc)
  }

  /** `ceil(x / m)`. */
  function CeilQuotient(x: nat, m: nat): nat
    requires m > 0
  {
    (x + m - 1) / m
  }

  lemma CeilQuotientExact(x: nat, m: nat, q: nat)
    requires m > 0
    ensures q >= CeilQuotient(x, m) <==> q * m >= x
  {
    var c, r := (x + m - 1) / m, (x + m - 1) % m;
    assert x + m - 1 == m * c + r;
    if q >= c {
      MulMonotone(m, c, q);
    } else {
      MulMonotone(m, q + 1, c);
      assert m * (q + 1) == m * q + m;
    }
    assert q * m == m * q;
  }

  lemma QuotientIs(p: nat, m: nat, k: nat)
    requires m > 0
    ensures p / m == k <==> k * m <= p < (k + 1) * m
  {
    var q, r := p / m, p % m;
    assert p == m * q + r && (k + 1) * m == k * m + m && k * m == m * k;
    if q < k {
      MulMonotone(m, q + 1, k);
      assert m * (q + 1) == m * q + m;
    } else if q > k {
      MulMonotone(m, k + 1, q);
      assert m * (k + 1) == m * k + m;
    }
  }

  /** The reduction is onto the window, never decreases with the draw, and is fair: the
      draws that yield `k` lines are an interval, and its length is the same for every `k`
      up to one draw. */
  lemma LinesFair(j: Jitter, k: nat)
    requires 0 < j.assoc <= MAX_ASSOCIATIVITY && k < j.assoc
    ensures forall draw: usize :: Lines(j, draw) == k <==> FirstDraw(j, k) <= draw < FirstDraw(j, k + 1)
    ensures FirstDraw(j, k) < FirstDraw(j, k + 1) <= USIZE_MAX + 1
    ensures var share := (USIZE_MAX + 1) / j.assoc;
            share <= FirstDraw(j, k + 1) - FirstDraw(j, k) <= share + 1
  {
    hide CeilQuotient;
    var w := USIZE_MAX + 1;
    forall draw: usize
      ensures Lines(j, draw) == k <==> FirstDraw(j, k) <= draw < FirstDraw(j, k + 1)
    {
      CeilQuotientExact(k * w, j.assoc, draw);
      CeilQuotientExact((k + 1) * w, j.assoc, draw);
      QuotientIs(draw * j.assoc, w, k);
    }
    MulMonotone(w, k + 1, j.assoc);
    CeilQuotientExact((k + 1) * w, j.assoc, w);
    assert (k + 1) * w == k * w + w;
    ShareOf(k * w, w, j.assoc);
    ShareIsPositive(j.assoc);
  }

  lemma ShareIsPositive(assoc: nat)
    requires 0 < assoc <= MAX_ASSOCIATIVITY
    ensures (USIZE_MAX + 1) / assoc > 0
  {
    QuotientIs(USIZE_MAX + 1, assoc, 0);
  }

  lemma ShareOf(x: nat, w: nat, m: nat)
    requires m > 0
    ensures w / m <= CeilQuotient(x + w, m) - CeilQuotient(x, m) <= w / m + 1
  {
    hide CeilQuotient;
    var c, q, r := CeilQuotient(x, m), w / m, w % m;
    assert w == m * q + r;
    CeilQuotientExact(x, m, c);
    if c > 0 { CeilQuotientExact(x, m, c - 1); }
    CeilQuotientExact(x + w, m, c + q + 1);
    assert (c + q + 1) * m == c * m + m * q + m;
    if c + q > 0 {
      CeilQuotientExact(x + w, m, c + q - 1);
      if c > 0 { assert (c + q - 1) * m == (c - 1) * m + m * q; }
      else { assert (c + q - 1) * m == m * q - m; }
    }
  }

  /** How many draws yield `k` lines. */
  function Share(j: Jitter, k: nat): int
    requires j.assoc > 0
  {
    FirstDraw(j, k + 1) - FirstDraw(j, k)
  }

  /** Exactly when the reduction is unbiased: when the associativity divides 2^64. */
  lemma LinesUnbiasedIff(j: Jitter)
    requires 0 < j.assoc <= MAX_ASSOCIATIVITY
    ensures (forall k: nat, m: nat :: k < j.assoc && m < j.assoc ==> Share(j, k) == Share(j, m)) <==>
            (USIZE_MAX + 1) % j.assoc == 0
  {
    hide CeilQuotient, Share, FirstDraw;
    var w, a := USIZE_MAX + 1, j.assoc;
    FirstAndLast(j);
    if w % a == 0 {
      forall k: nat | k < a
        ensures Share(j, k) == w / a
      {
        EvenShare(j, k);
      }
    }
    if forall k: nat, m: nat :: k < a && m < a ==> Share(j, k) == Share(j, m) {
      SharesAddUp(j, a, Share(j, 0));
      if Share(j, 0) < 0 { MulMonotone(a, Share(j, 0), -1); }
      DivModUnique(w, a, Share(j, 0), 0);
    }
  }

  lemma FirstAndLast(j: Jitter)
    requires j.assoc > 0
    ensures FirstDraw(j, 0) == 0 && FirstDraw(j, j.assoc) == USIZE_MAX + 1
  {
    hide CeilQuotient;
    var w := USIZE_MAX + 1;
    CeilQuotientExact(0, j.assoc, 0);
    CeilQuotientExact(j.assoc * w, j.assoc, w);
    CeilQuotientExact(j.assoc * w, j.assoc, w - 1);
    assert (w - 1) * j.assoc == w * j.assoc - j.assoc;
  }

  lemma EvenShare(j: Jitter, k: nat)
    requires j.assoc > 0 && (USIZE_MAX + 1) % j.assoc == 0
    ensures Share(j, k) == (USIZE_MAX + 1) / j.assoc
  {
    hide CeilQuotient;
    EvenFirst(j, k);
    EvenFirst(j, k + 1);
    var q := (USIZE_MAX + 1) / j.assoc;
    assert (k + 1) * q == k * q + q;
  }

  lemma EvenFirst(j: Jitter, k: nat)
    requires j.assoc > 0 && (USIZE_MAX + 1) % j.assoc == 0
    ensures FirstDraw(j, k) == k * ((USIZE_MAX + 1) / j.assoc)
  {
    hide CeilQuotient;
    var w, q := USIZE_MAX + 1, (USIZE_MAX + 1) / j.assoc;
    assert w == j.assoc * q;
    assert (k * q) * j.assoc == k * w;
    CeilQuotientExact(k * w, j.assoc, k * q);
    if k * q > 0 {
      CeilQuotientExact(k * w, j.assoc, k * q - 1);
      assert (k * q - 1) * j.assoc == k * w - j.assoc;
    }
  }

  lemma {:induction false} SharesAddUp(j: Jitter, k: nat, q: int)
    requires j.assoc > 0 && forall i: nat :: i < k ==> Share(j, i) == q
    ensures FirstDraw(j, k) == k * q
  {
    hide CeilQuotient;
    if k == 0 {
      FirstAndLast(j);
    } else {
      SharesAddUp(j, k - 1, q);
      assert Share(j, k - 1) == q && k * q == (k - 1) * q + q;
    }
  }

  // ------------------------------------------------------------ the header

  const DISP_MASK: nat := 0xFFFF
  const DISP_FIELD: nat := 0x1_0000

  lemma FieldIsPow2()
    ensures Pow2(16) == DISP_FIELD
  {
    Pow2Byte(8);
    Pow2Byte(0);
  }

  /** `(mac48 << 16) | (lines & 0xFFFF)` with `mac48 = mac >> 16`. */
  function Seal(mac: usize, lines: usize): nat {
    BitOr((mac / DISP_FIELD) * DISP_FIELD, BitAnd(lines, DISP_MASK))
  }

  /** A sealed header is a word from which both fields come back, and no other word has
      those fields. */
  lemma SealExact(mac: usize, lines: usize)
    requires lines <= DISP_MASK
    ensures Seal(mac, lines) <= USIZE_MAX
    ensures BitAnd(Seal(mac, lines), DISP_MASK) == lines && Seal(mac, lines) / DISP_FIELD == mac / DISP_FIELD
    ensures forall h: usize :: BitAnd(h, DISP_MASK) == lines && h / DISP_FIELD == mac / DISP_FIELD ==>
              h == Seal(mac, lines)
  {
    hide BitAnd, BitOr;
    FieldIsPow2();
    AndLowOnes(lines, 16);
    OrIntoCleared(mac / DISP_FIELD, lines, 16);
    AndLowOnes(Seal(mac, lines), 16);
    forall h: usize
      ensures BitAnd(h, DISP_MASK) == h % DISP_FIELD
    {
      AndLowOnes(h, 16);
    }
  }

  lemma SealIsWord(mac: usize, lines: usize)
    requires lines <= DISP_MASK
    ensures Seal(mac, lines) <= USIZE_MAX
  {
    SealExact(mac, lines);
  }

  lemma MaskedIsSmall(h: usize)
    ensures BitAnd(h, DISP_MASK) <= DISP_MASK
  {
    hide BitAnd;
    FieldIsPow2();
    AndLowOnes(h, 16);
  }

  /** `disp >> line_shift`: a division, the line being a power of two. */
  function LinesOf(j: Jitter, disp: nat): (lines: nat)
    requires Accepted(j) && disp <= MaxDisplacement(j)
    ensures lines <= DISP_MASK
  {
    hide MaxDisplacement, Accepted, IsPow2;
    QuotientFits(j, disp);
    disp / j.line
  }

  /** `pack_header`. */
  function Pack(j: Jitter, addr: usize, disp: nat): usize
    requires Accepted(j) && disp <= MaxDisplacement(j)
  {
    hide MaxDisplacement, Seal, Accepted, LinesOf;
    var lines: usize := LinesOf(j, disp);
    SealIsWord(j.mix(addr, lines), lines);
    Seal(j.mix(addr, lines), lines)
  }

  lemma QuotientFits(j: Jitter, disp: nat)
    requires Accepted(j) && disp <= MaxDisplacement(j)
    ensures 0 < j.line && disp / j.line < j.assoc && disp / j.line <= DISP_MASK
  {
    hide IsPow2;
    assert j.line * j.assoc == MaxDisplacement(j) + j.line;
    QuotientBelow(disp, j.line, j.assoc);
  }

  /** `unpack_header`; `lines << line_shift` drops what does not fit a word. */
  function Unpack(j: Jitter, addr: usize, header: usize): Option<nat>
    requires Accepted(j)
  {
    MaskedIsSmall(header);
    var lines := BitAnd(header, DISP_MASK);
    if header / DISP_FIELD != j.mix(addr, lines) / DISP_FIELD then None
    else
      var disp := (lines * j.line) % (USIZE_MAX + 1);
      if disp > MaxDisplacement(j) then None else Some(disp)
  }

  lemma WindowFits(j: Jitter, lines: nat)
    requires Accepted(j) && lines < j.assoc
    ensures lines * j.line <= MaxDisplacement(j) <= USIZE_MAX
    ensures (lines * j.line) / j.line == lines
  {
    hide IsPow2;
    MulMonotone(j.line, lines, j.assoc - 1);
    DivModUnique(lines * j.line, j.line, lines, 0);
  }

  /** Unpacking inverts packing for every displacement the wrapper can draw, at every
      address, under every key. */
  lemma UnpackPack(j: Jitter, addr: usize, lines: nat)
    requires Accepted(j) && lines < j.assoc
    ensures lines * j.line <= MaxDisplacement(j)
    ensures Unpack(j, addr, Pack(j, addr, lines * j.line)) == Some(lines * j.line)
  {
    hide Seal, BitAnd, IsPow2;
    WindowFits(j, lines);
    SealExact(j.mix(addr, lines), lines);
    DivModUnique(lines * j.line, USIZE_MAX + 1, 0, lines * j.line);
  }

  /** A header of that many lines, whether or not the wrapper draws it. */
  lemma UnpackSealed(j: Jitter, addr: usize, lines: nat)
    requires Accepted(j) && lines <= DISP_MASK
    ensures Seal(j.mix(addr, lines), lines) <= USIZE_MAX
    ensures var disp := (lines * j.line) % (USIZE_MAX + 1);
            Unpack(j, addr, Seal(j.mix(addr, lines), lines)) == if disp > MaxDisplacement(j) then None else Some(disp)
  {
    hide Seal, BitAnd, IsPow2;
    SealExact(j.mix(addr, lines), lines);
  }

  /** No header is accepted but the one `pack_header` makes for the displacement found. */
  ghost predicate OneHeaderEach(j: Jitter)
    requires Accepted(j)
  {
    forall addr: usize, h: usize :: Unpack(j, addr, h).Some? ==> IsPacked(j, addr, h)
  }

  ghost predicate IsPacked(j: Jitter, addr: usize, h: usize)
    requires Accepted(j)
  {
    exists lines: nat ::
      lines < j.assoc && lines * j.line <= MaxDisplacement(j) && h == Pack(j, addr, lines * j.line)
      && Unpack(j, addr, h) == Some(lines * j.line)
  }

  lemma SmallLineIsOneToOne(j: Jitter, addr: usize, h: usize)
    requires Accepted(j) && j.line * DISP_FIELD <= USIZE_MAX + 1 && Unpack(j, addr, h).Some?
    ensures IsPacked(j, addr, h)
  {
    hide Seal, BitAnd, IsPow2, Accepted, Pack, MaxDisplacement;
    MaskedIsSmall(h);
    var lines := BitAnd(h, DISP_MASK);
    LinesAreAWord(j, lines);
    DivModUnique(lines * j.line, USIZE_MAX + 1, 0, lines * j.line);
    LinesFromBytes(j, lines);
    WindowFits(j, lines);
    SealExact(j.mix(addr, lines), lines);
    PackIsSeal(j, addr, lines);
  }

  lemma LinesAreAWord(j: Jitter, lines: nat)
    requires Accepted(j) && j.line * DISP_FIELD <= USIZE_MAX + 1 && lines <= DISP_MASK
    ensures lines * j.line <= USIZE_MAX
  {
    hide IsPow2;
    MulMonotone(j.line, lines, DISP_MASK);
    assert j.line * DISP_FIELD == j.line * DISP_MASK + j.line;
  }

  lemma PackIsSeal(j: Jitter, addr: usize, lines: nat)
    requires Accepted(j) && lines < j.assoc && lines * j.line <= MaxDisplacement(j)
    ensures Pack(j, addr, lines * j.line) == Seal(j.mix(addr, lines), lines)
  {
    hide Seal, IsPow2;
    WindowFits(j, lines);
  }

  lemma LinesFromBytes(j: Jitter, lines: nat)
    requires Accepted(j) && lines * j.line <= MaxDisplacement(j)
    ensures lines < j.assoc
  {
    hide IsPow2;
    if lines >= j.assoc { MulMonotone(j.line, j.assoc, lines); }
  }

  /** The number of such lines in the address space fits the header's field. */
  lemma LapOfLines(j: Jitter) returns (lines: nat)
    requires Accepted(j) && j.line * DISP_FIELD > USIZE_MAX + 1
    ensures 0 < lines <= DISP_MASK && lines * j.line == USIZE_MAX + 1
  {
    hide IsPow2;
    lines := WordOver(j.line);
    if lines > DISP_MASK { MulMonotone(j.line, DISP_FIELD, lines); }
  }

  /** A power of two within the word divides it. */
  lemma WordOver(line: nat) returns (lines: nat)
    requires IsPow2(line) && line <= USIZE_MAX + 1
    ensures 0 < lines && lines * line == USIZE_MAX + 1
  {
    hide Pow2, IsPow2;
    var log := Log2(line);
    Log2Bounded(line);
    WordIsPow2();
    Pow2Add(log, USIZE_BITS - log);
    lines := Pow2(USIZE_BITS - log);
  }

  /** With a line so large that 65536 of them do not fit the address space, the header of
      `2^64 / line` lines wraps around to displacement zero: at every address two different
      words are accepted for it. */
  lemma LargeLineHasTwo(j: Jitter, addr: usize)
    requires Accepted(j) && j.line * DISP_FIELD > USIZE_MAX + 1
    ensures exists g: usize, h: usize :: g != h && Unpack(j, addr, g) == Some(0) == Unpack(j, addr, h)
    ensures !OneHeaderEach(j)
  {
    hide Seal, BitAnd, IsPow2, MaxDisplacement, Unpack, IsPacked;
    var lines := LapOfLines(j);
    DivModUnique(lines * j.line, USIZE_MAX + 1, 1, 0);
    UnpackSealed(j, addr, lines);
    UnpackSealed(j, addr, 0);
    var g: usize, h: usize := Seal(j.mix(addr, 0), 0), Seal(j.mix(addr, lines), lines);
    SealExact(j.mix(addr, lines), lines);
    SealExact(j.mix(addr, 0), 0);
    assert g != h && Unpack(j, addr, g) == Some(0) == Unpack(j, addr, h);
    if IsPacked(j, addr, h) { ZeroIsPackedOnce(j, addr, h, lines); }
  }

  /** Such a line is accepted: 2^49 bytes with associativity 1, under any key. */
  lemma TwoHeadersForOne(line: usize, mix: (usize, usize) -> usize, addr: usize)
    requires line == 0x2_0000_0000_0000
    ensures WithParams(line, 1, mix).Some?
    ensures var j := WithParams(line, 1, mix).value;
            && Accepted(j)
            && exists g: usize, h: usize :: g != h && Unpack(j, addr, g) == Some(0) == Unpack(j, addr, h)
  {
    hide Unpack, IsPow2;
    LinePow2(49);
    LargeLineHasTwo(WithParams(line, 1, mix).value, addr);
  }

  lemma LinePow2(k: nat)
    requires k == 49
    ensures Pow2(k) == 0x2_0000_0000_0000 && IsPow2(Pow2(k))
  {
    hide Pow2, IsPow2;
    Pow2IsPow2(k);
    Pow2Byte(k - 8);
    Pow2Byte(k - 16);
    Pow2Byte(k - 24);
    Pow2Byte(k - 32);
    Pow2Byte(k - 40);
    Pow2Byte(k - 48);
    Pow2One(k - 48);
  }

  lemma Pow2One(k: nat)
    requires k == 1
    ensures Pow2(k) == 2
  {
  }

  lemma ZeroIsPackedOnce(j: Jitter, addr: usize, h: usize, lines: nat)
    requires Accepted(j) && 0 < lines <= DISP_MASK && h == Seal(j.mix(addr, lines), lines)
    requires Unpack(j, addr, h) == Some(0)
    ensures !IsPacked(j, addr, h)
  {
    hide Seal, BitAnd, IsPow2, Unpack;
    if IsPacked(j, addr, h) {
      var k: nat :| k < j.assoc && k * j.line <= MaxDisplacement(j) && h == Pack(j, addr, k * j.line)
                    && Unpack(j, addr, h) == Some(k * j.line);
      assert k == 0 by { if k > 0 { MulMonotone(j.line, 1, k); } }
      PackIsSeal(j, addr, 0);
      SealExact(j.mix(addr, lines), lines);
      SealExact(j.mix(addr, 0), 0);
      assert false;
    }
  }

  /** Exactly when a displacement has one header per address: when 65536 lines fit the
      address space. Every real cache line does. */
  lemma OneHeaderEachIff(j: Jitter)
    requires Accepted(j)
    ensures OneHeaderEach(j) <==> j.line * DISP_FIELD <= USIZE_MAX + 1
  {
    hide Seal, BitAnd, IsPow2, Unpack, Pack, IsPacked;
    if j.line * DISP_FIELD <= USIZE_MAX + 1 {
      forall addr: usize, h: usize | Unpack(j, addr, h).Some?
        ensures IsPacked(j, addr, h)
      {
        SmallLineIsOneToOne(j, addr, h);
      }
    } else {
      LargeLineHasTwo(j, 0);
    }
  }

  // ------------------------------------------------------------ blocks

  datatype Request =
    | PassThrough
    | Refused
    | Inflated(layout: Layout)

  /** `inner_layout_for`. */
  function RequestFor(j: Jitter, l: NonZeroLayout): Request
    requires Accepted(j)
  {
    if l.align > j.line then PassThrough
    else
      match CheckedAdd(l.size, Prefix(j))
      case None => Refused
      case Some(total) =>
        WindowFits(j, 0);
        match NewLayout(total, j.line)
        case None => Refused
        case Some(il) => Inflated(il)
  }

  /** Alignments above a line pass through; below, the inflated layout exists exactly when
      its padded size fits `isize::MAX`. */
  lemma RequestExact(j: Jitter, l: NonZeroLayout)
    requires Accepted(j)
    ensures var total := l.size + Prefix(j);
            RequestFor(j, l) == if l.align > j.line then PassThrough
                                else if RoundUp(total, j.line) <= ISIZE_MAX then Inflated(Layout(total, j.line))
                                else Refused
  {
    hide RoundUp, IsPow2;
    var total := l.size + Prefix(j);
    RoundUpBounds(total, j.line);
    if total <= USIZE_MAX { NewLayoutExact(total, j.line); }
  }

  /** Where the client's bytes go: past the header's line, within the inflated block. */
  lemma UserFits(j: Jitter, l: NonZeroLayout, disp: nat)
    requires Accepted(j) && RequestFor(j, l).Inflated? && disp <= MaxDisplacement(j)
    ensures 8 <= j.line && 0 < l.size && 0 < l.align <= j.line
    ensures j.line + disp + l.size <= RequestFor(j, l).layout.size
  {
    hide MaxDisplacement, RoundUp;
    RequestExact(j, l);
  }

  function WithHeader(inner: nat, il: Layout, user: nat, l: Layout, header: usize): Block
    requires 8 <= user
  {
    Block(inner, il, user, l, [Guard(user - 8, header)])
  }

  lemma HeaderWellLaid(inner: nat, il: Layout, user: nat, l: Layout, header: usize)
    requires inner + 8 <= user && user + l.size <= inner + il.size
    ensures WellLaid(WithHeader(inner, il, user, l, header))
  {
  }

  /** The block `allocate` makes of an inner block, shifted by `disp` bytes. */
  function BlockAt(j: Jitter, inner: nat, l: NonZeroLayout, disp: nat): Block
    requires Accepted(j) && RequestFor(j, l).Inflated? && disp <= MaxDisplacement(j)
    requires inner + RequestFor(j, l).layout.size <= USIZE_MAX + 1
  {
    hide MaxDisplacement, RequestFor;
    UserFits(j, l, disp);
    var user := inner + j.line + disp;
    WithHeader(inner, RequestFor(j, l).layout, user, l, Pack(j, user, disp))
  }

  lemma UserAligned(inner: nat, line: nat, lines: nat, align: nat)
    requires 0 < align <= line && IsPow2(line) && IsPow2(align) && Aligned(inner, line)
    ensures Aligned(inner + line + lines * line, align)
  {
    hide IsPow2, Aligned;
    AlignedTimes(line, 1 + lines);
    assert line * (1 + lines) == line + lines * line;
    AlignedPlus(inner, line * (1 + lines), line);
    AlignedForSmaller(inner + line * (1 + lines), line, align);
  }

  /** The header and the client's bytes lie in the inner block and never overlap, and a
      displacement of whole lines keeps the alignment the client asked for. */
  lemma BlockIsWellLaid(j: Jitter, inner: nat, l: NonZeroLayout, lines: nat)
    requires Accepted(j) && RequestFor(j, l).Inflated? && lines < j.assoc
    requires inner + RequestFor(j, l).layout.size <= USIZE_MAX + 1
    ensures lines * j.line <= MaxDisplacement(j)
    ensures var b := BlockAt(j, inner, l, lines * j.line);
            WellLaid(b) && (Aligned(inner, j.line) ==> Aligned(b.user, l.align))
  {
    hide RoundUp, IsPow2, Aligned, Pack, RequestFor, MaxDisplacement, WellLaid;
    WindowFits(j, lines);
    var disp := lines * j.line;
    UserFits(j, l, disp);
    var user := inner + j.line + disp;
    HeaderWellLaid(inner, RequestFor(j, l).layout, user, l, Pack(j, user, disp));
    if Aligned(inner, j.line) { UserAligned(inner, j.line, lines, l.align); }
  }

  datatype Outcome =
    | Panic
    | ToInner(ptr: int, layout: Layout)

  /** Memory a `deallocate` of this pointer reads: the eight bytes before it, if it was
      jittered at all. */
  predicate InBounds(j: Jitter, bytes: seq<Byte>, ptr: usize, l: NonZeroLayout)
    requires Accepted(j)
  {
    RequestFor(j, l).Inflated? ==> 8 <= ptr <= |bytes|
  }

  /** `deallocate`: verify the header, walk back to the inner pointer. */
  function Free(j: Jitter, bytes: seq<Byte>, ptr: usize, l: NonZeroLayout): Outcome
    requires Accepted(j) && InBounds(j, bytes, ptr, l)
  {
    match RequestFor(j, l)
    case PassThrough => ToInner(ptr, l)
    case Refused => Panic
    case Inflated(il) =>
      match Unpack(j, ptr, ReadWord(bytes, ptr - 8))
      case None => Panic
      case Some(disp) => ToInner(ptr - (j.line + disp), il)
  }

  /** Exactly which frees of a jittered layout are refused: those whose stored word is not
      the header of any displacement in the window at that address. Any other hands the
      inner the pointer that lies a line and that displacement before the client's. */
  lemma FreeExact(j: Jitter, bytes: seq<Byte>, ptr: usize, l: NonZeroLayout)
    requires Accepted(j) && InBounds(j, bytes, ptr, l) && j.line * DISP_FIELD <= USIZE_MAX + 1
    requires RequestFor(j, l).Inflated?
    ensures Free(j, bytes, ptr, l) == Panic <==> !exists lines: nat :: HeaderIs(j, bytes, ptr, lines)
    ensures forall lines: nat :: HeaderIs(j, bytes, ptr, lines) ==>
              Free(j, bytes, ptr, l) == ToInner(ptr - (j.line + lines * j.line), RequestFor(j, l).layout)
  {
    hide Unpack, Pack, ReadWord, IsPow2, Accepted, RequestFor, MaxDisplacement;
    var h := ReadWord(bytes, ptr - 8);
    if Unpack(j, ptr, h).Some? {
      SmallLineIsOneToOne(j, ptr, h);
      var lines: nat :| lines < j.assoc && lines * j.line <= MaxDisplacement(j) && h == Pack(j, ptr, lines * j.line);
      assert HeaderIs(j, bytes, ptr, lines);
    }
    forall lines: nat | HeaderIs(j, bytes, ptr, lines)
      ensures Unpack(j, ptr, h) == Some(lines * j.line)
    {
      UnpackPack(j, ptr, lines);
    }
  }

  /** The word before `ptr` is the header of a shift by that many lines. */
  ghost predicate HeaderIs(j: Jitter, bytes: seq<Byte>, ptr: usize, lines: nat)
    requires Accepted(j) && 8 <= ptr <= |bytes|
  {
    lines < j.assoc && lines * j.line <= MaxDisplacement(j)
    && ReadWord(bytes, ptr - 8) == Pack(j, ptr, lines * j.line)
  }

  ghost predicate BlockWithin(j: Jitter, b: Block, disp: nat)
    requires Accepted(j) && ValidLayout(b.layout) && RequestFor(j, b.layout).Inflated?
    requires b.inner + RequestFor(j, b.layout).layout.size <= USIZE_MAX + 1
  {
    disp <= MaxDisplacement(j) && b == BlockAt(j, b.inner, b.layout, disp)
  }

  /** The blocks of a run come from this wrapper's `allocate`. */
  ghost predicate Jittered(j: Jitter, b: Block)
    requires Accepted(j)
  {
    && ValidLayout(b.layout) && b.inner + b.innerLayout.size <= USIZE_MAX + 1
    && match RequestFor(j, b.layout)
       case PassThrough => b == Block(b.inner, b.layout, b.inner, b.layout, [])
       case Refused => false
       case Inflated(il) =>
         && b.innerLayout == il
         && exists lines: nat :: lines < j.assoc && BlockWithin(j, b, lines * j.line)
  }

  ghost predicate OnlyJittered(j: Jitter, steps: seq<Step>)
    requires Accepted(j)
  {
    forall i :: 0 <= i < |steps| && steps[i].Issue? ==> Jittered(j, steps[i].b)
  }

  lemma SoundBlockFrees(j: Jitter, h: Heap, b: Block)
    requires Accepted(j) && Sound(h, b) && Jittered(j, b)
    ensures b.user <= USIZE_MAX && InBounds(j, h.bytes, b.user, b.layout)
    ensures Free(j, h.bytes, b.user, b.layout) == ToInner(b.inner, b.innerLayout)
  {
    hide Encode, Decode, Pack, Unpack, IsPow2, RoundUp;
    if RequestFor(j, b.layout).Inflated? {
      RequestExact(j, b.layout);
      var lines: nat :| lines < j.assoc && BlockWithin(j, b, lines * j.line);
      WindowFits(j, lines);
      assert Intact(h.bytes, b.guards[0]);
      DecodeEncode(b.guards[0].word);
      UnpackPack(j, b.user, lines);
    }
  }

  /** Round trip over whole runs, for every accepted line, associativity and key and every
      choice of displacements: while clients write only their own bytes, no header check
      of a live block ever fails, and its free hands the inner exactly the pointer and
      layout the inner issued. */
  lemma RunNeverPanics(j: Jitter, states: seq<Heap>, steps: seq<Step>, n: nat, b: Block)
    requires Accepted(j) && IsRun(states, steps) && OnlyJittered(j, steps) && n <= |steps|
    requires b in states[n].live
    ensures ValidLayout(b.layout) && b.user <= USIZE_MAX && InBounds(j, states[n].bytes, b.user, b.layout)
    ensures Free(j, states[n].bytes, b.user, b.layout) == ToInner(b.inner, b.innerLayout)
    ensures Enabled(states[n], Release(b, false))
    ensures multiset(states[n].issued) == multiset(states[n].live) + multiset(states[n].returned)
  {
    hide Encode, Stamp, Free, BlockAt, RequestFor, Next, Accepted, InBounds;
    RunKeepsInv(states, steps, n);
    LiveWasIssued(states, steps, n, b);
    SoundBlockFrees(j, states[n], b);
  }

  // ------------------------------------------------------------ the object

  /** Over one region of memory; the inner allocator is a parameter of each call. */
  class CacheJitter {
    const jitter: Jitter
    const bytes: array<Byte>
    var rng: bv64

    ghost predicate Valid()
      reads this
    {
      Accepted(jitter) && rng != 0
    }

    constructor (jitter: Jitter, seed: bv64, bytes: array<Byte>)
      requires Accepted(jitter)
      ensures Valid() && this.jitter == jitter && this.bytes == bytes && rng == SeedOf(seed)
    {
      this.jitter, rng, this.bytes := jitter, SeedOf(seed), bytes;
    }

    /** `inner` is the inner's answer to the request for `asked`. A failed or passed-through
        request draws nothing. */
    method Allocate(l: NonZeroLayout, inner: Option<nat>) returns (r: Option<nat>, asked: Request)
      requires Valid()
      requires RequestFor(jitter, l).Inflated? && inner.Some? ==>
                 && inner.value + RequestFor(jitter, l).layout.size <= bytes.Length
                 && inner.value + RequestFor(jitter, l).layout.size <= USIZE_MAX + 1
      modifies this, bytes
      ensures Valid() && asked == RequestFor(jitter, l)
      ensures match asked
              case PassThrough => r == inner && rng == old(rng) && bytes[..] == old(bytes[..])
              case Refused => r == None && rng == old(rng) && bytes[..] == old(bytes[..])
              case Inflated(_) =>
                if inner == None then r == None && rng == old(rng) && bytes[..] == old(bytes[..])
                else
                  && rng == NextRng(old(rng)) && Displacement(jitter, rng) <= MaxDisplacement(jitter)
                  && r == Some(inner.value + jitter.line + Lines(jitter, Draw(rng)) * jitter.line)
                  && var b := BlockAt(jitter, inner.value, l, Displacement(jitter, rng));
                     r == Some(b.user) && Stamped(old(bytes[..]), bytes[..], b)
    {
      hide Pack, WriteWord, Shift1, Shift2, Shift3, Lines, Stamped, Draw, IsPow2, MaxDisplacement, RequestFor;
      asked := RequestFor(jitter, l);
      if asked.PassThrough? {
        return inner, asked;
      }
      if asked.Refused? || inner == None {
        return None, asked;
      }
      RngStaysNonZero(rng);
      rng := NextRng(rng);
      var disp := Displacement(jitter, rng);
      LinesInWindow(jitter, Draw(rng));
      ghost var b := BlockAt(jitter, inner.value, l, disp);
      UserFits(jitter, l, disp);
      StampOne(bytes[..], b);
      var user := inner.value + jitter.line + disp;
      StoreWord(bytes, user - 8, Pack(jitter, user, disp));
      return Some(user), asked;
    }

    method Deallocate(ptr: usize, l: NonZeroLayout) returns (outcome: Outcome)
      requires Valid() && InBounds(jitter, bytes[..], ptr, l)
      ensures outcome == Free(jitter, bytes[..], ptr, l)
    {
      hide Unpack, ReadWord, IsPow2;
      var request := RequestFor(jitter, l);
      match request {
        case PassThrough => return ToInner(ptr, l);
        case Refused => return Panic;
        case Inflated(il) =>
          var header := LoadWord(bytes, ptr - 8);
          var disp := Unpack(jitter, ptr, header);
          if disp == None {
            return Panic;
          }
          return ToInner(ptr - (jitter.line + disp.value), il);
      }
    }
  }

  lemma RngStaysNonZero(x: bv64)
    requires x != 0
    ensures NextRng(x) != 0
  {
    hide Shift1, Shift2, Shift3;
    Shift1NonZero(x);
    Shift2NonZero(Shift1(x));
    Shift3NonZero(Shift2(Shift1(x)));
  }

  lemma StampOne(bytes: seq<Byte>, b: Block)
    requires |b.guards| == 1 && b.guards[0].at + 8 <= |bytes|
    ensures Stamped(bytes, WriteWord(bytes, b.guards[0].at, b.guards[0].word), b)
  {
    hide WriteWord;
    assert Stamp(bytes, b.guards[..0], false) == bytes;
  }
}
