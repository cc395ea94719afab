/** `AlignedColBuffer`: a growable byte buffer that is always aligned. The calls as
    functions on values, then the object that performs them. */
module AlignedCols {
  import opened Words
  import opened RawBytes
  import opened Layouts

  /** `copied` adds up the old capacities handed to reallocation, `requested` is the
      largest `len + additional` any call asked for, `initial` the capacity of
      `with_capacity`: all history. */
  datatype Buffer = Buffer(align: nat, bytes: seq<Byte>, cap: nat, copied: nat, requested: nat, initial: nat)

  datatype Outcome = Outcome(after: Buffer, ok: bool)

  /** `grants` is the global allocator's answer, consulted only if it is asked. */
  datatype Op =
    | Reserve(additional: usize, grants: bool)
    | Push(byte: Byte, grants: bool)
    | Extend(data: seq<Byte>, grants: bool)
    | Clear

  /** Block and layout: what the buffer's memory safety rests on. */
  ghost predicate Laid(b: Buffer) {
    && IsPow2(b.align) && b.align <= USIZE_MAX
    && |b.bytes| <= b.cap
    && (b.cap > 0 ==> b.cap <= USIZE_MAX && NewLayout(b.cap, b.align).Some?)
  }

  /** With the cost of growing: bytes copied and capacity against what was asked for. */
  ghost predicate Inv(b: Buffer) {
    Laid(b) && b.copied <= b.cap <= Max(b.initial, 2 * b.requested)
  }

  function Fresh(align: nat): Buffer { Buffer(align, [], 0, 0, 0, 0) }

  /** `with_capacity`; `None` is the source's error. */
  function WithCapacityOf(align: nat, capacity: usize, grants: bool): Option<Buffer>
    requires IsPow2(align) && align <= USIZE_MAX
  {
    if capacity == 0 then Some(Fresh(align))
    else GrownTo(Fresh(align).(initial := capacity), capacity, grants)
  }

  /** `grow_to`. */
  function GrownTo(b: Buffer, newCap: usize, grants: bool): Option<Buffer>
    requires b.align <= USIZE_MAX
  {
    if NewLayout(newCap, b.align) == None then None
    else if !grants then None
    else Some(b.(cap := newCap, copied := b.copied + b.cap))
  }

  /** `usize::saturating_mul(2)`. */
  function Doubled(cap: nat): nat { Min(2 * cap, USIZE_MAX) }

  /** The capacity `reserve` asks for when it has to grow. */
  function Target(required: nat, cap: nat): nat { Max(required, Doubled(cap)) }

  function Reserved(b: Buffer, additional: usize, grants: bool): Outcome
    requires b.align <= USIZE_MAX
  {
    var asked := b.(requested := Max(b.requested, |b.bytes| + additional));
    match CheckedAdd(|b.bytes|, additional)
    case None => Outcome(asked, false)
    case Some(required) =>
      if required <= b.cap then Outcome(asked, true)
      else
        match GrownTo(asked, Target(required, b.cap), grants)
        case None => Outcome(asked, false)
        case Some(grown) => Outcome(grown, true)
  }

  function Append(r: Outcome, data: seq<Byte>): Outcome {
    if r.ok then r.(after := r.after.(bytes := r.after.bytes + data)) else r
  }

  predicate Enabled(op: Op) {
    op.Extend? ==> |op.data| <= USIZE_MAX
  }

  function Apply(b: Buffer, op: Op): (r: Outcome)
    requires b.align <= USIZE_MAX && Enabled(op)
    ensures r.after.align == b.align
  {
    match op
    case Reserve(additional, grants) => Reserved(b, additional, grants)
    case Push(byte, grants) =>
      Append(if |b.bytes| == b.cap then Reserved(b, 1, grants) else Outcome(b, true), [byte])
    case Extend(data, grants) => Append(Reserved(b, |data|, grants), data)
    case Clear => Outcome(b.(bytes := []), true)
  }

  // ------------------------------------------------------------ one call

  lemma CapIsHalfWord(b: Buffer)
    requires Inv(b)
    ensures b.cap <= ISIZE_MAX && Doubled(b.cap) == 2 * b.cap
  {
    hide IsPow2;
  }

  /** Doubling pays for the copy, and overshoots the request by less than a factor two. */
  lemma ReservedKeepsInv(b: Buffer, additional: usize, grants: bool)
    requires Inv(b)
    ensures var r := Reserved(b, additional, grants);
            Inv(r.after) && r.after.bytes == b.bytes && r.after.initial == b.initial && r.after.align == b.align
            && r.after.requested == Max(b.requested, |b.bytes| + additional)
            && b.cap <= r.after.cap && (r.ok ==> |b.bytes| + additional <= r.after.cap)
            && (!r.ok ==> r.after == b.(requested := r.after.requested))
  {
    hide IsPow2, NewLayout;
    CapIsHalfWord(b);
  }

  lemma AlignPositive(align: nat)
    requires IsPow2(align)
    ensures align > 0
  {
  }

  /** The request overflows a word, or more room is needed and either the doubled size is no
      valid layout or the allocator declines. */
  ghost predicate RoomFails(b: Buffer, additional: usize, grants: bool)
    requires b.align > 0
  {
    var required := |b.bytes| + additional;
    required > USIZE_MAX
    || (required > b.cap && (RoundUp(Max(required, 2 * b.cap), b.align) > ISIZE_MAX || !grants))
  }

  /** `reserve` fails exactly when the request overflows a word, or more room is needed
      and either the doubled size is no valid layout or the allocator declines. */
  lemma ReservedFailsExactly(b: Buffer, additional: usize, grants: bool)
    requires Inv(b)
    ensures b.align > 0
    ensures !Reserved(b, additional, grants).ok <==> RoomFails(b, additional, grants)
  {
    hide IsPow2, NewLayout, RoundUp;
    AlignPositive(b.align);
    CapIsHalfWord(b);
    var required := |b.bytes| + additional;
    if required <= USIZE_MAX { NewLayoutExact(Target(required, b.cap), b.align); }
  }

  /** Doubling can turn a request away that the plain size would have met: a willing
      allocator, a valid layout for the bytes required, and still an error. That happens
      exactly when the doubled capacity no longer rounds to a layout. */
  lemma DoublingRefusesIff(b: Buffer, additional: usize)
    requires Inv(b)
    ensures var required := |b.bytes| + additional;
            (!Reserved(b, additional, true).ok && RoundUp(required, b.align) <= ISIZE_MAX) <==>
            (required > b.cap && RoundUp(required, b.align) <= ISIZE_MAX && RoundUp(2 * b.cap, b.align) > ISIZE_MAX)
  {
    hide IsPow2, NewLayout, RoundUp;
    var required := |b.bytes| + additional;
    ReservedFailsExactly(b, additional, true);
    AlignPositive(b.align);
    RoundUpMonotone(2 * b.cap, Max(required, 2 * b.cap), b.align);
  }

  /** Such requests exist: an empty, unaligned buffer pre-allocated with more than half of
      `isize::MAX` is refused one byte more than it has. */
  lemma DoublingRefusesFresh(cap: usize)
    requires ISIZE_MAX < 2 * cap && cap < ISIZE_MAX
    ensures var b := WithCapacityOf(1, cap, true);
            && b.Some? && b.value.cap == cap && b.value.bytes == []
            && RoundUp(cap + 1, 1) <= ISIZE_MAX
            && !Reserved(b.value, cap + 1, true).ok
  {
    hide RoundUp, NewLayout;
    OneRounds(cap);
    OneRounds(cap + 1);
    OneRounds(2 * cap);
    NewLayoutExact(cap, 1);
    StartInv(1, cap, true);
    hide Inv, Reserved, GrownTo;
    DoublingRefusesIff(WithCapacityOf(1, cap, true).value, cap + 1);
  }

  /** One of them: 2^62 bytes, and one more. */
  lemma DoublingRefusesOne(cap: usize)
    requires cap == 0x4000_0000_0000_0000
    ensures var b := WithCapacityOf(1, cap, true);
            && b.Some? && b.value.cap == cap && b.value.bytes == []
            && RoundUp(cap + 1, 1) <= ISIZE_MAX
            && !Reserved(b.value, cap + 1, true).ok
  {
    hide RoundUp, Reserved, WithCapacityOf;
    DoublingRefusesFresh(cap);
  }

  lemma OneRounds(n: nat)
    ensures RoundUp(n, 1) == n
  {
    hide RoundUp;
    AlignedTimes(1, n);
    RoundUpOfMultiple(n, 1);
  }

  /** What one call does to the bytes: it appends exactly its data and says so, or leaves
      the bytes, the capacity and the allocation as they were. */
  lemma ApplyExact(b: Buffer, op: Op)
    requires Inv(b) && Enabled(op)
    ensures var r := Apply(b, op);
            && Inv(r.after) && r.after.align == b.align && r.after.initial == b.initial
            && b.requested <= r.after.requested
            && (!r.ok ==> r.after == b.(requested := r.after.requested))
            && (r.ok ==> r.after.bytes == match op
                                          case Reserve(_, _) => b.bytes
                                          case Push(byte, _) => b.bytes + [byte]
                                          case Extend(data, _) => b.bytes + data
                                          case Clear => [])
            && (r.ok && op.Reserve? ==> |b.bytes| + op.additional <= r.after.cap)
  {
    hide IsPow2, NewLayout, Reserved;
    match op
    case Reserve(additional, grants) => ReservedKeepsInv(b, additional, grants);
    case Push(byte, grants) => ReservedKeepsInv(b, 1, grants);
    case Extend(data, grants) => ReservedKeepsInv(b, |data|, grants);
    case Clear =>
  }

  /** How many bytes a call adds, and the allocator's answer to it. */
  function Added(op: Op): (nat, bool) {
    match op
    case Reserve(additional, grants) => (additional, grants)
    case Push(_, grants) => (1, grants)
    case Extend(data, grants) => (|data|, grants)
    case Clear => (0, true)
  }

  /** Exactly when a call succeeds, and the capacity it leaves: a push or an extend fails as a
      reserve of as many bytes would, `clear` never; room that is there is not touched, and
      a buffer that has to grow at least doubles. */
  lemma ApplySucceedsExactly(b: Buffer, op: Op)
    requires Inv(b) && Enabled(op)
    ensures b.align > 0
    ensures Apply(b, op).ok <==> op.Clear? || !RoomFails(b, Added(op).0, Added(op).1)
    ensures Apply(b, op).ok ==>
              var required := |b.bytes| + Added(op).0;
              Apply(b, op).after.cap == if required <= b.cap then b.cap else Max(required, 2 * b.cap)
  {
    hide IsPow2, NewLayout, RoundUp;
    AlignPositive(b.align);
    CapIsHalfWord(b);
    if !op.Clear? { ReservedFailsExactly(b, Added(op).0, Added(op).1); }
  }

  /** `with_capacity` fails exactly for a capacity that is no layout, or when the allocator
      declines; asking for none allocates nothing. */
  lemma WithCapacityFailsExactly(align: nat, capacity: usize, grants: bool)
    requires IsPow2(align) && align <= USIZE_MAX
    ensures align > 0
    ensures WithCapacityOf(align, capacity, grants) == None <==>
            capacity > 0 && (RoundUp(capacity, align) > ISIZE_MAX || !grants)
  {
    hide IsPow2, NewLayout, RoundUp;
    AlignPositive(align);
    NewLayoutExact(capacity, align);
  }

  // ------------------------------------------------------------ whole runs

  ghost function Run(b: Buffer, ops: seq<Op>): Buffer
    requires b.align <= USIZE_MAX && forall i :: 0 <= i < |ops| ==> Enabled(ops[i])
    decreases |ops|
  {
    if ops == [] then b
    else Run(Apply(b, ops[0]).after, ops[1..])
  }

  /** The bytes a plain sequence holds after the calls that succeeded. */
  ghost function PlainRun(b: Buffer, ops: seq<Op>, bytes: seq<Byte>): seq<Byte>
    requires Inv(b) && forall i :: 0 <= i < |ops| ==> Enabled(ops[i])
    decreases |ops|
  {
    if ops == [] then bytes
    else
      ApplyExact(b, ops[0]);
      var r := Apply(b, ops[0]);
      PlainRun(r.after, ops[1..],
               if !r.ok then bytes
               else match ops[0]
                    case Reserve(_, _) => bytes
                    case Push(byte, _) => bytes + [byte]
                    case Extend(data, _) => bytes + data
                    case Clear => [])
  }

  /** Amortized growth, for any mix of calls and any answers of the allocator: the buffer
      holds exactly the bytes a plain sequence would; all the bytes ever handed to
      reallocation add up to at most the current capacity; and that capacity, unless
      `with_capacity` set it, is at most twice the largest size ever asked for. */
  lemma {:induction false} RunIsAmortized(b: Buffer, ops: seq<Op>)
    requires Inv(b) && forall i :: 0 <= i < |ops| ==> Enabled(ops[i])
    ensures var r := Run(b, ops);
            && Inv(r) && r.align == b.align && r.initial == b.initial
            && r.bytes == PlainRun(b, ops, b.bytes)
            && r.copied <= r.cap <= Max(b.initial, 2 * r.requested)
    decreases |ops|
  {
    hide IsPow2, NewLayout, Apply;
    if ops != [] {
      ApplyExact(b, ops[0]);
      RunIsAmortized(Apply(b, ops[0]).after, ops[1..]);
    }
  }

  lemma StartInv(align: nat, capacity: usize, grants: bool)
    requires IsPow2(align) && align <= USIZE_MAX
    ensures Inv(Fresh(align))
    ensures WithCapacityOf(align, capacity, grants).Some? ==>
              var b := WithCapacityOf(align, capacity, grants).value;
              Inv(b) && b.bytes == [] && b.cap == b.initial == capacity && b.copied == 0
  {
    hide IsPow2;
  }

  /** Filling a fresh buffer byte by byte copies at most twice as many bytes as there are
      pushes. */
  lemma {:induction false} PushesCopyLinearly(b: Buffer, ops: seq<Op>, n: nat)
    requires Inv(b) && b.initial == 0 && |b.bytes| <= n && b.requested <= n
    requires forall i :: 0 <= i < |ops| ==> ops[i].Push?
    ensures Run(b, ops).copied <= 2 * (n + |ops|)
    ensures |Run(b, ops).bytes| <= n + |ops|
    decreases |ops|
  {
    hide IsPow2, NewLayout, Reserved;
    if ops != [] {
      ApplyExact(b, ops[0]);
      ReservedKeepsInv(b, 1, ops[0].grants);
      PushesCopyLinearly(Apply(b, ops[0]).after, ops[1..], n + 1);
    }
  }

  lemma SpliceTail(all: seq<Byte>, at: nat, data: seq<Byte>)
    requires at + |data| <= |all|
    ensures Splice(all, at, data)[..at + |data|] == all[..at] + data
  {
  }

  // ------------------------------------------------------------ the object

  /** `ptr` is the address of the allocation, `data` the bytes behind it. Where the source
      calls the global allocator the answer is a parameter: an aligned address, or none. */
  class AlignedColBuffer {
    const align: nat
    var ptr: nat
    var data: array<Byte>
    var len: nat
    var cap: nat
    /** The layout the allocator last granted this buffer a block for. */
    ghost var held: Option<Layout>
    ghost var copied: nat
    ghost var requested: nat
    ghost const initial: nat

    ghost function Model(): Buffer
      requires len <= data.Length
      reads this, data
    {
      Buffer(align, data[..len], cap, copied, requested, initial)
    }

    /** The block is the one the allocator granted for the capacity. */
    ghost predicate Shaped()
      reads this, data
    {
      && len <= cap == data.Length && Laid(Model())
      && Aligned(ptr, align)
      && held == if cap == 0 then None else Some(Layout(cap, align))
    }

    ghost predicate Valid()
      reads this, data
    {
      Shaped() && Inv(Model())
    }

    /** `new`: no allocation, a dangling aligned pointer. */
    constructor (align: nat)
      requires IsPow2(align) && align <= USIZE_MAX
      ensures Valid() && Model() == Fresh(align) && fresh(data)
    {
      this.align, ptr, len, cap := align, align, 0, 0;
      data := new Byte[0];
      held, copied, requested, initial := None, 0, 0, 0;
      new;
      assert data[..0] == [];
      StartInv(align, 0, true);
    }

    /** `with_capacity`: `ok` false is the source's error, the buffer then being dropped. */
    constructor WithCapacity(align: nat, capacity: usize, answer: Option<nat>)
      requires IsPow2(align) && align <= USIZE_MAX
      requires answer.Some? ==> Aligned(answer.value, align)
      ensures Valid() && fresh(data)
      ensures var w := WithCapacityOf(align, capacity, answer.Some?);
              Model() == if w.Some? then w.value else Fresh(align).(initial := capacity)
      ensures len == 0 && align > 0
      ensures cap == if RoundUp(capacity, align) <= ISIZE_MAX && answer.Some? then capacity else 0
    {
      this.align, ptr, len, cap := align, align, 0, 0;
      data := new Byte[0];
      held, copied, requested, initial := None, 0, 0, capacity;
      new;
      StartInv(align, capacity, true);
      assert data[..0] == [];
      assert Inv(Model());
      if capacity > 0 {
        var _ := GrowTo(capacity, answer);
      }
    }

    /** `grow_to`, for any larger capacity. The old block goes to the allocator with
        exactly the layout it was granted for. */
    method GrowTo(newCap: usize, answer: Option<nat>) returns (ok: bool)
      requires Shaped() && newCap > cap
      requires answer.Some? ==> Aligned(answer.value, align)
      modifies this
      ensures Shaped() && (data == old(data) || fresh(data))
      ensures var g := GrownTo(old(Model()), newCap, answer.Some?);
              ok == g.Some? && Model() == if ok then g.value else old(Model())
      ensures align > 0 && (ok <==> RoundUp(newCap, align) <= ISIZE_MAX && answer.Some?)
      ensures len == old(len) && data[..len] == old(data[..len])
      ensures cap == (if ok then newCap else old(cap)) && ptr == (if ok then answer.value else old(ptr))
    {
      hide IsPow2, RoundUp;
      AlignPositive(align);
      NewLayoutExact(newCap, align);
      var newLayout := NewLayout(newCap, align);
      if newLayout == None {
        return false;
      }
      if cap != 0 {
        var oldLayout := NewLayout(cap, align);
        assert oldLayout == held;
      }
      if answer == None {
        return false;
      }
      var block := new Byte[newCap](_ => 0);
      CopyFrom(block, 0, data[..cap]);
      assert block[..len] == data[..len];
      copied := copied + cap;
      data, ptr, cap := block, answer.value, newCap;
      held := newLayout;
      return true;
    }

    method Reserve(additional: usize, answer: Option<nat>) returns (ok: bool)
      requires Valid() && (answer.Some? ==> Aligned(answer.value, align))
      modifies this
      ensures Valid() && (data == old(data) || fresh(data))
      ensures Outcome(Model(), ok) == Reserved(old(Model()), additional, answer.Some?)
      ensures align > 0 && (ok <==> !RoomFails(old(Model()), additional, answer.Some?))
      ensures len == old(len) && data[..len] == old(data[..len]) && (ok ==> len + additional <= cap)
    {
      hide IsPow2, RoundUp, NewLayout, RoomFails;
      ghost var before := Model();
      ReservedFailsExactly(before, additional, answer.Some?);
      CapIsHalfWord(before);
      requested := Max(requested, len + additional);
      var required := CheckedAdd(len, additional);
      if required == None {
        return false;
      }
      if required.value <= cap {
        return true;
      }
      var newCap := Max(required.value, Doubled(cap));
      ok := GrowTo(newCap, answer);
      ReservedKeepsInv(before, additional, answer.Some?);
    }

    method Push(byte: Byte, answer: Option<nat>) returns (ok: bool)
      requires Valid() && (answer.Some? ==> Aligned(answer.value, align))
      modifies this, data
      ensures Valid() && (data == old(data) || fresh(data))
      ensures Outcome(Model(), ok) == Apply(old(Model()), Op.Push(byte, answer.Some?))
      ensures align > 0 && (ok <==> !RoomFails(old(Model()), 1, answer.Some?))
      ensures data[..len] == if ok then old(data[..len]) + [byte] else old(data[..len])
    {
      hide IsPow2, RoundUp, NewLayout, Reserved, RoomFails;
      ghost var before := Model();
      ApplySucceedsExactly(before, Op.Push(byte, answer.Some?));
      if len == cap {
        ReservedKeepsInv(before, 1, answer.Some?);
        ok := Reserve(1, answer);
        if !ok {
          return false;
        }
      }
      data[len] := byte;
      len := len + 1;
      assert data[..len] == data[..len - 1] + [byte];
      return true;
    }

    /** `extend_from_slice`, and `extend_from_typed` on the bytes of its slice. */
    method Extend(bytes: seq<Byte>, answer: Option<nat>) returns (ok: bool)
      requires Valid() && |bytes| <= USIZE_MAX && (answer.Some? ==> Aligned(answer.value, align))
      modifies this, data
      ensures Valid() && (data == old(data) || fresh(data))
      ensures Outcome(Model(), ok) == Apply(old(Model()), Op.Extend(bytes, answer.Some?))
      ensures align > 0 && (ok <==> !RoomFails(old(Model()), |bytes|, answer.Some?))
      ensures data[..len] == if ok then old(data[..len]) + bytes else old(data[..len])
    {
      hide IsPow2, RoundUp, NewLayout, Reserved, Splice, Inv, Aligned, RoomFails;
      ghost var before := Model();
      ApplySucceedsExactly(before, Op.Extend(bytes, answer.Some?));
      ReservedKeepsInv(before, |bytes|, answer.Some?);
      ApplyExact(before, Op.Extend(bytes, answer.Some?));
      ok := Reserve(|bytes|, answer);
      if !ok {
        return false;
      }
      ghost var all := data[..];
      CopyFrom(data, len, bytes);
      SpliceTail(all, len, bytes);
      len := len + |bytes|;
      assert data[..len] == data[..][..len];
      return true;
    }

    method Clear()
      requires Valid()
      modifies this
      ensures Valid() && data == old(data) && cap == old(cap)
      ensures Outcome(Model(), true) == Apply(old(Model()), Op.Clear)
      ensures len == 0
    {
      len := 0;
      assert data[..0] == [];
    }

    /** `Drop`: the layout the block is freed with, if there is a block. */
    method Drop() returns (freed: Option<Layout>)
      requires Valid()
      ensures freed == held
    {
      if cap == 0 {
        return None;
      }
      freed := NewLayout(cap, align);
    }
  }
}
