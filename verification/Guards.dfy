/** Machine words stored by an allocator wrapper beside a client's bytes: the displacement
    header of `CacheJitter`, the two sentinels of `Canary`. What a heap with such blocks
    keeps while clients write only their own bytes. */
module Guards {
  import opened Words
  import opened RawBytes
  import opened Layouts

  // ------------------------------------------------------------ words in memory

  /** The low `n` bytes of `w`, least significant first. */
  function Digits(w: nat, n: nat): (s: seq<Byte>)
    ensures |s| == n
  {
    if n == 0 then [] else [w % 256] + Digits(w / 256, n - 1)
  }

  function Number(s: seq<Byte>): nat {
    if s == [] then 0 else s[0] + 256 * Number(s[1..])
  }

  function Pow256(n: nat): nat { if n == 0 then 1 else 256 * Pow256(n - 1) }

  lemma {:induction false} NumberDigits(w: nat, n: nat)
    requires w < Pow256(n)
    ensures Number(Digits(w, n)) == w
  {
    if n > 0 {
      NumberDigits(w / 256, n - 1);
      assert Digits(w, n)[1..] == Digits(w / 256, n - 1);
    }
  }

  lemma {:induction false} DigitsNumber(s: seq<Byte>)
    ensures Number(s) < Pow256(|s|)
    ensures Digits(Number(s), |s|) == s
  {
    if s != [] {
      DigitsNumber(s[1..]);
      assert Number(s) / 256 == Number(s[1..]) && Number(s) % 256 == s[0];
      assert s == [s[0]] + s[1..];
    }
  }

  lemma EightBytesAreAWord()
    ensures Pow256(8) == USIZE_MAX + 1
  {
    assert Pow256(2) == 0x1_0000;
    assert Pow256(4) == 0x1_0000_0000;
    assert Pow256(6) == 0x1_0000_0000_0000;
  }

  /** The eight bytes of a word, as `write_unaligned::<u64>` stores them. */
  function Encode(w: usize): (s: seq<Byte>)
    ensures |s| == 8
  {
    Digits(w, 8)
  }

  /** `read_unaligned::<u64>`. */
  function Decode(s: seq<Byte>): usize
    requires |s| == 8
  {
    DigitsNumber(s);
    EightBytesAreAWord();
    Number(s)
  }

  lemma DecodeEncode(w: usize)
    ensures Decode(Encode(w)) == w
  {
    EightBytesAreAWord();
    NumberDigits(w, 8);
  }

  lemma EncodeDecode(s: seq<Byte>)
    requires |s| == 8
    ensures Encode(Decode(s)) == s
  {
    DigitsNumber(s);
  }

  function ReadWord(bytes: seq<Byte>, at: nat): usize
    requires at + 8 <= |bytes|
  {
    Decode(bytes[at..at + 8])
  }

  function WriteWord(bytes: seq<Byte>, at: nat, w: usize): (r: seq<Byte>)
    requires at + 8 <= |bytes|
    ensures |r| == |bytes|
    ensures forall k :: 0 <= k < |bytes| ==> r[k] == if at <= k < at + 8 then Encode(w)[k - at] else bytes[k]
  {
    bytes[..at] + Encode(w) + bytes[at + 8..]
  }

  method StoreWord(bytes: array<Byte>, at: nat, w: usize)
    requires at + 8 <= bytes.Length
    modifies bytes
    ensures bytes[..] == WriteWord(old(bytes[..]), at, w)
  {
    hide Encode;
    var data := Encode(w);
    for k := 0 to 8
      invariant forall j :: 0 <= j < bytes.Length ==>
                  bytes[j] == if at <= j < at + k then data[j - at] else old(bytes[j])
    {
      bytes[at + k] := data[k];
    }
  }

  method LoadWord(bytes: array<Byte>, at: nat) returns (w: usize)
    requires at + 8 <= bytes.Length
    ensures w == ReadWord(bytes[..], at)
  {
    hide Decode;
    assert bytes[..][at..at + 8] == bytes[at..at + 8];
    w := Decode(bytes[at..at + 8]);
  }

  // ------------------------------------------------------------ guarded blocks

  datatype Guard = Guard(at: nat, word: usize)

  /** A block as the wrapper sees it: what the inner issued, what the client got, and the
      words stored in between. */
  datatype Block = Block(inner: nat, innerLayout: Layout, user: nat, layout: Layout, guards: seq<Guard>)

  /** The client's bytes and the guards are inside the inner block and overlap nowhere. */
  ghost predicate WellLaid(b: Block) {
    && b.inner <= b.user && b.user + b.layout.size <= b.inner + b.innerLayout.size
    && (forall i :: 0 <= i < |b.guards| ==>
          && b.inner <= b.guards[i].at && b.guards[i].at + 8 <= b.inner + b.innerLayout.size
          && (b.guards[i].at + 8 <= b.user || b.user + b.layout.size <= b.guards[i].at))
    && (forall i, j :: 0 <= i < j < |b.guards| ==>
          b.guards[i].at + 8 <= b.guards[j].at || b.guards[j].at + 8 <= b.guards[i].at)
  }

  predicate Apart(b: Block, c: Block) {
    b.inner + b.innerLayout.size <= c.inner || c.inner + c.innerLayout.size <= b.inner
  }

  /** `issued` and `returned` are what has passed through the inner allocator so far. */
  datatype Heap = Heap(bytes: seq<Byte>, live: set<Block>, issued: seq<Block>, returned: seq<Block>)

  datatype Step =
    | Issue(b: Block)
    | Write(b: Block, pos: nat, value: Byte)
    | Scribble(at: nat, scribbled: Byte)
    | Release(b: Block, wipe: bool)

  ghost predicate MayIssue(h: Heap, b: Block) {
    && 0 < b.innerLayout.size && b.inner + b.innerLayout.size <= |h.bytes|
    && forall c :: c in h.live ==> Apart(b, c)
  }

  /** Clients write only their own bytes; the inner writes only where nothing is live. */
  ghost predicate Enabled(h: Heap, step: Step) {
    match step
    case Issue(b) => WellLaid(b) && MayIssue(h, b)
    case Write(b, pos, _) => b in h.live && pos < b.layout.size && b.user + pos < |h.bytes|
    case Scribble(at, _) =>
      at < |h.bytes| && forall c :: c in h.live ==> !(c.inner <= at < c.inner + c.innerLayout.size)
    case Release(b, _) => b in h.live && WellLaid(b) && b.inner + b.innerLayout.size <= |h.bytes|
  }

  /** The guards stored, or zeroed, one after the other. */
  function Stamp(bytes: seq<Byte>, guards: seq<Guard>, zero: bool): (r: seq<Byte>)
    requires forall i :: 0 <= i < |guards| ==> guards[i].at + 8 <= |bytes|
    ensures |r| == |bytes|
  {
    if guards == [] then bytes
    else
      var n := |guards| - 1;
      WriteWord(Stamp(bytes, guards[..n], zero), guards[n].at, if zero then 0 else guards[n].word)
  }

  /** The memory after `b`'s guards have been stored. */
  ghost predicate Stamped(before: seq<Byte>, after: seq<Byte>, b: Block) {
    (forall i :: 0 <= i < |b.guards| ==> b.guards[i].at + 8 <= |before|)
    && after == Stamp(before, b.guards, false)
  }

  ghost function Next(h: Heap, step: Step): Heap
    requires Enabled(h, step)
  {
    match step
    case Issue(b) =>
      Heap(Stamp(h.bytes, b.guards, false), h.live + {b}, h.issued + [b], h.returned)
    case Write(b, pos, value) => h.(bytes := h.bytes[b.user + pos := value])
    case Scribble(at, value) => h.(bytes := h.bytes[at := value])
    case Release(b, wipe) =>
      h.(bytes := if wipe then Stamp(h.bytes, b.guards, true) else h.bytes,
         live := h.live - {b}, returned := h.returned + [b])
  }

  ghost predicate Intact(bytes: seq<Byte>, g: Guard) {
    g.at + 8 <= |bytes| && bytes[g.at..g.at + 8] == Encode(g.word)
  }

  /** A live block is well laid out, in the heap, and all its guards are intact. */
  ghost predicate Sound(h: Heap, b: Block) {
    && WellLaid(b) && 0 < b.innerLayout.size && b.inner + b.innerLayout.size <= |h.bytes|
    && forall i :: 0 <= i < |b.guards| ==> Intact(h.bytes, b.guards[i])
  }

  ghost predicate Inv(h: Heap) {
    && (forall b :: b in h.live ==> Sound(h, b))
    && (forall b, c :: b in h.live && c in h.live && b != c ==> Apart(b, c))
    && multiset(h.issued) == multiset(h.live) + multiset(h.returned)
  }

  ghost predicate Init(h: Heap) { h.live == {} && h.issued == [] && h.returned == [] }

  lemma {:induction false} StampFrame(bytes: seq<Byte>, guards: seq<Guard>, zero: bool, k: nat)
    requires forall i :: 0 <= i < |guards| ==> guards[i].at + 8 <= |bytes|
    requires k < |bytes| && forall i :: 0 <= i < |guards| ==> !(guards[i].at <= k < guards[i].at + 8)
    ensures Stamp(bytes, guards, zero)[k] == bytes[k]
  {
    hide Encode;
    if guards != [] { StampFrame(bytes, guards[..|guards| - 1], zero, k); }
  }

  lemma {:induction false} StampIntact(bytes: seq<Byte>, guards: seq<Guard>, i: nat)
    requires forall i :: 0 <= i < |guards| ==> guards[i].at + 8 <= |bytes|
    requires forall i, j :: 0 <= i < j < |guards| ==>
               guards[i].at + 8 <= guards[j].at || guards[j].at + 8 <= guards[i].at
    requires i < |guards|
    ensures Intact(Stamp(bytes, guards, false), guards[i])
  {
    hide Encode;
    var n := |guards| - 1;
    if i < n {
      var before := Stamp(bytes, guards[..n], false);
      StampIntact(bytes, guards[..n], i);
      assert Stamp(bytes, guards, false)[guards[i].at..guards[i].at + 8] == before[guards[i].at..guards[i].at + 8];
    }
  }

  /** Bytes outside a live block's range do not matter to it. */
  lemma SoundFrame(h: Heap, r: Heap, b: Block)
    requires Sound(h, b) && |r.bytes| == |h.bytes|
    requires forall i, k :: 0 <= i < |b.guards| && b.guards[i].at <= k < b.guards[i].at + 8 && k < |h.bytes| ==>
               r.bytes[k] == h.bytes[k]
    ensures Sound(r, b)
  {
    hide Encode;
    forall i | 0 <= i < |b.guards|
      ensures Intact(r.bytes, b.guards[i])
    {
      assert Intact(h.bytes, b.guards[i]);
      assert r.bytes[b.guards[i].at..b.guards[i].at + 8] == h.bytes[b.guards[i].at..b.guards[i].at + 8];
    }
  }

  lemma StampSparesOthers(h: Heap, r: Heap, b: Block, c: Block, zero: bool)
    requires WellLaid(b) && b.inner + b.innerLayout.size <= |h.bytes| && Sound(h, c) && Apart(b, c)
    requires r.bytes == Stamp(h.bytes, b.guards, zero)
    ensures Sound(r, c)
  {
    hide Encode, Stamp;
    forall i, k | 0 <= i < |c.guards| && c.guards[i].at <= k < c.guards[i].at + 8 && k < |h.bytes|
      ensures r.bytes[k] == h.bytes[k]
    {
      StampFrame(h.bytes, b.guards, zero, k);
    }
    SoundFrame(h, r, c);
  }

  lemma IssueKeepsInv(h: Heap, b: Block)
    requires Inv(h) && Enabled(h, Issue(b))
    ensures Inv(Next(h, Issue(b))) && b !in h.live
  {
    hide Encode, Stamp;
    var r := Next(h, Issue(b));
    forall i | 0 <= i < |b.guards|
      ensures Intact(r.bytes, b.guards[i])
    {
      StampIntact(h.bytes, b.guards, i);
    }
    assert !Apart(b, b);
    forall c | c in h.live
      ensures Sound(r, c)
    {
      StampSparesOthers(h, r, b, c, false);
    }
    assert multiset(r.live) == multiset(h.live) + multiset{b};
  }

  lemma ReleaseKeepsInv(h: Heap, b: Block, wipe: bool)
    requires Inv(h) && Enabled(h, Release(b, wipe))
    ensures Inv(Next(h, Release(b, wipe)))
  {
    hide Encode, Stamp;
    var r := Next(h, Release(b, wipe));
    forall c | c in r.live
      ensures Sound(r, c)
    {
      assert Apart(b, c);
      if wipe { StampSparesOthers(h, r, b, c, true); }
    }
    assert multiset(h.live) == multiset(r.live) + multiset{b};
  }

  lemma NextKeepsInv(h: Heap, step: Step)
    requires Inv(h) && Enabled(h, step)
    ensures Inv(Next(h, step))
  {
    hide Encode, Stamp;
    match step
    case Issue(b) => IssueKeepsInv(h, b);
    case Release(b, wipe) => ReleaseKeepsInv(h, b, wipe);
    case Scribble(at, _) =>
      forall c | c in h.live
        ensures Sound(Next(h, step), c)
      {
        SoundFrame(h, Next(h, step), c);
      }
    case Write(b, pos, _) =>
      forall c | c in h.live
        ensures Sound(Next(h, step), c)
      {
        if c != b { assert Apart(b, c); }
        assert Sound(h, b);
        SoundFrame(h, Next(h, step), c);
      }
  }

  /** What each step does to memory: a store of the guards or their wiping, which touches
      nothing else, or one byte. */
  lemma StepExact(h: Heap, step: Step)
    requires Inv(h) && Enabled(h, step)
    ensures var r := Next(h, step);
            && |r.bytes| == |h.bytes|
            && r.live == (if step.Issue? then h.live + {step.b}
                          else if step.Release? then h.live - {step.b} else h.live)
            && (step.Issue? ==> forall i :: 0 <= i < |step.b.guards| ==> Intact(r.bytes, step.b.guards[i]))
            && forall k :: 0 <= k < |h.bytes| && !Touches(step, k) ==> r.bytes[k] == h.bytes[k]
    ensures step.Write? ==> Next(h, step).bytes[step.b.user + step.pos] == step.value
    ensures step.Scribble? ==> Next(h, step).bytes[step.at] == step.scribbled
  {
    hide Encode, Stamp, Inv;
    if step.Issue? {
      forall i | 0 <= i < |step.b.guards|
        ensures Intact(Next(h, step).bytes, step.b.guards[i])
      {
        StampIntact(h.bytes, step.b.guards, i);
      }
    }
    if step.Issue? || step.Release? {
      forall k | 0 <= k < |h.bytes| && !InGuard(step.b, k)
        ensures Stamp(h.bytes, step.b.guards, step.Release?)[k] == h.bytes[k]
      {
        StampFrame(h.bytes, step.b.guards, step.Release?, k);
      }
    }
  }

  ghost predicate Touches(step: Step, k: nat) {
    match step
    case Issue(b) => InGuard(b, k)
    case Write(b, pos, _) => k == b.user + pos
    case Scribble(at, _) => k == at
    case Release(b, wipe) => wipe && InGuard(b, k)
  }

  ghost predicate InGuard(b: Block, k: nat) {
    exists i :: 0 <= i < |b.guards| && b.guards[i].at <= k < b.guards[i].at + 8
  }

  ghost predicate IsRun(states: seq<Heap>, steps: seq<Step>) {
    && |states| == |steps| + 1 && Init(states[0])
    && forall i :: 0 <= i < |steps| ==>
         Enabled(states[i], steps[i]) && states[i + 1] == Next(states[i], steps[i])
  }

  /** In every run the guards of every live block stay intact, and each block the inner
      issued is live or has been returned to it exactly once. */
  lemma {:induction false} RunKeepsInv(states: seq<Heap>, steps: seq<Step>, n: nat)
    requires IsRun(states, steps) && n <= |steps|
    ensures Inv(states[n])
  {
    hide Next, Enabled, Inv;
    if n == 0 {
      InitInv(states[0]);
    } else {
      RunKeepsInv(states, steps, n - 1);
      NextKeepsInv(states[n - 1], steps[n - 1]);
    }
  }

  lemma InitInv(h: Heap)
    requires Init(h)
    ensures Inv(h)
  {
  }

  /** Whatever is live was issued in the run. */
  lemma {:induction false} LiveWasIssued(states: seq<Heap>, steps: seq<Step>, n: nat, b: Block)
    requires IsRun(states, steps) && n <= |steps| && b in states[n].live
    ensures exists i :: 0 <= i < n && steps[i] == Issue(b)
  {
    if n > 0 {
      if b in states[n - 1].live {
        LiveWasIssued(states, steps, n - 1, b);
      } else {
        assert steps[n - 1] == Issue(b);
      }
    }
  }
}
