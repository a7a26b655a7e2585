/** The framebuffer slot allocator: one bit per slot, page-rounded slots, and a free path that finds the slot by
    dividing by the unrounded size. */
module FramebufferSlots {
  import opened Align

  // ----- bit masks

  predicate Bit(m: nat, i: nat)
    decreases i
  {
    if i == 0 then m % 2 == 1 else Bit(m / 2, i - 1)
  }

  /** Bitwise `|` on unsigned integers. */
  function Or(x: nat, y: nat): nat
    decreases x + y
  {
    if x == 0 then y else if y == 0 then x
    else 2 * Or(x / 2, y / 2) + if x % 2 == 1 || y % 2 == 1 then 1 else 0
  }

  lemma {:induction false} TestBit(m: nat, i: nat)
    ensures And(m, Pow2(i)) == 0 <==> !Bit(m, i)
    decreases i
  {
    if i > 0 {
      TestBit(m / 2, i - 1);
      ZeroHasNoBits(i);
    }
  }

  lemma {:induction false} ZeroHasNoBits(i: nat)
    ensures !Bit(0, i)
  {
    if i > 0 {
      ZeroHasNoBits(i - 1);
    }
  }

  /** Setting a bit changes that bit and no other. */
  lemma {:induction false} SetBit(m: nat, i: nat, j: nat)
    ensures Bit(Or(m, Pow2(i)), j) <==> i == j || Bit(m, j)
    decreases i
  {
    ZeroHasNoBits(j);
    if m == 0 {
      PowBit(i, j);
    } else if i == 0 {
    } else if j > 0 {
      SetBit(m / 2, i - 1, j - 1);
    }
  }

  lemma {:induction false} PowBit(i: nat, j: nat)
    ensures Bit(Pow2(i), j) <==> i == j
    decreases i
  {
    if i == 0 {
      if j > 0 {
        ZeroHasNoBits(j - 1);
      }
    } else if j > 0 {
      PowBit(i - 1, j - 1);
    }
  }

  /** `m & ~(1 << i)` in `bits` bits; a shift past them clears nothing. The source shifts a 64-bit one, so a shift of
      64 or more is undefined there; `Defined` says that a run has none. */
  function Cleared(m: nat, i: nat, bits: nat): (r: nat)
    ensures r <= m
  {
    if i >= bits then m else PowBelow(i, bits); And(m, Not(Pow2(i), bits))
  }

  lemma {:induction false} PowBelow(i: nat, bits: nat)
    requires i < bits
    ensures 2 * Pow2(i) <= Pow2(bits)
    decreases bits
  {
    if i + 1 < bits {
      PowBelow(i, bits - 1);
    }
  }

  lemma BitOfDouble(x: nat, b: nat, j: nat)
    requires b < 2
    ensures Bit(2 * x + b, j) <==> if j == 0 then b == 1 else Bit(x, j - 1)
  {
    assert (2 * x + b) / 2 == x;
  }

  lemma ClearedLowest(m: nat, bits: nat)
    requires 0 < bits && m < Pow2(bits)
    ensures Cleared(m, 0, bits) == 2 * (m / 2)
  {
    AndTwice(m, Not(1, bits), Pow2(bits - 1) - 1);
    AndAllOnes(m / 2, bits - 1);
  }

  lemma ClearedHigher(m: nat, i: nat, bits: nat)
    requires 0 < i < bits
    ensures Cleared(m, i, bits) == 2 * Cleared(m / 2, i - 1, bits - 1) + m % 2
  {
    PowBelow(i - 1, bits - 1);
    AndOdd(m, Not(Pow2(i), bits), Not(Pow2(i - 1), bits - 1));
  }

  /** Clearing a bit changes that bit and no other. */
  lemma {:induction false} ClearBit(m: nat, i: nat, bits: nat, j: nat)
    requires i < bits && m < Pow2(bits)
    ensures Bit(Cleared(m, i, bits), j) <==> i != j && Bit(m, j)
    decreases i
  {
    if i == 0 {
      ClearedLowest(m, bits);
      BitOfDouble(m / 2, 0, j);
    } else {
      ClearedHigher(m, i, bits);
      BitOfDouble(Cleared(m / 2, i - 1, bits - 1), m % 2, j);
      if j > 0 {
        ClearBit(m / 2, i - 1, bits - 1, j - 1);
      }
    }
  }

  lemma AndTwice(x: nat, y: nat, half: nat)
    requires y == 2 * half
    ensures And(x, y) == 2 * And(x / 2, half)
  {
    AndEven(x, half);
  }

  lemma AndOdd(x: nat, y: nat, half: nat)
    requires y == 2 * half + 1
    ensures And(x, y) == 2 * And(x / 2, half) + x % 2
  {
    assert y / 2 == half && y % 2 == 1;
  }

  lemma {:induction false} OrBound(m: nat, i: nat, n: nat)
    requires m < Pow2(n) && i < n
    ensures Or(m, Pow2(i)) < Pow2(n)
    decreases i
  {
    PowBelow(i, n);
    if m > 0 && i > 0 {
      OrBound(m / 2, i - 1, n - 1);
    }
  }

  /** The first slot from `i` on whose bit is clear, or `n`. */
  function FirstFree(m: nat, i: nat, n: nat): (r: nat)
    requires i <= n
    ensures i <= r <= n && (r < n ==> !Bit(m, r))
    ensures forall j :: i <= j < r ==> Bit(m, j)
    decreases n - i
  {
    if i == n || !Bit(m, i) then i else FirstFree(m, i + 1, n)
  }

  /** `n` set bits make the full mask. */
  lemma {:induction false} AllBitsSet(m: nat, n: nat)
    requires forall j :: 0 <= j < n ==> Bit(m, j)
    ensures m >= Pow2(n) - 1
    decreases n
  {
    if n > 0 {
      assert Bit(m, 0);
      forall j | 0 <= j < n - 1
        ensures Bit(m / 2, j)
      {
        assert Bit(m, j + 1);
      }
      AllBitsSet(m / 2, n - 1);
    }
  }

  lemma {:induction false} FullMaskSet(m: nat, n: nat, j: nat)
    requires m == Pow2(n) - 1 && j < n
    ensures Bit(m, j)
    decreases n
  {
    BitOfDouble(Pow2(n - 1) - 1, 1, j);
    if j > 0 {
      FullMaskSet(Pow2(n - 1) - 1, n - 1, j - 1);
    }
  }

  // ----- slots

  /** The width of `bufferMask`. */
  const BITS: nat := 32

  /** The width of the constant that is shifted. */
  const SHIFT_BITS: nat := 64

  /** `size` is one screen in bytes, `slot` the same rounded up to pages. */
  datatype Config = Config(present: bool, buffers: nat, size: nat, slot: nat)

  predicate Valid(c: Config) {
    c.buffers <= BITS && 0 < c.size <= c.slot
  }

  /** The mask, and for each live handle the slot its base address points at. */
  datatype State = State(mask: nat, live: map<nat, nat>)

  datatype Outcome = NoFramebuffer | Ordinary | OutOfBuffers | Given(slot: nat)

  datatype Op = Alloc(p: nat) | Free(p: nat)

  function AllocStep(c: Config, s: State, p: nat): (State, Outcome) {
    if !c.present then (s, NoFramebuffer)
    else if c.buffers == 1 then (s, Ordinary)
    else if s.mask >= Pow2(c.buffers) - 1 then (s, OutOfBuffers)
    else
      var i := FirstFree(s.mask, 0, c.buffers);
      (State(if i < c.buffers then Or(s.mask, Pow2(i)) else s.mask, s.live[p := i]), Given(i))
  }

  /** The slot that `free_impl` takes a base address for. */
  function FreedIndex(c: Config, i: nat): nat
    requires c.size > 0
  {
    Span(i, c.slot) / c.size
  }

  function FreeStep(c: Config, s: State, p: nat): State
    requires c.size > 0 && p in s.live
  {
    State(Cleared(s.mask, FreedIndex(c, s.live[p]), BITS), s.live - {p})
  }

  /** A new handle is one not yet live; only live handles are freed. */
  function Apply(c: Config, s: State, op: Op): State
    requires c.size > 0
  {
    match op
    case Alloc(p) => if p in s.live then s else AllocStep(c, s, p).0
    case Free(p) => if p in s.live then FreeStep(c, s, p) else s
  }

  function After(c: Config, ops: seq<Op>): State
    requires c.size > 0
  {
    if ops == [] then State(0, map[]) else Apply(c, After(c, ops[..|ops| - 1]), ops[|ops| - 1])
  }

  /** No free of the run shifts by the width of its constant or more. */
  predicate Defined(c: Config, ops: seq<Op>)
    requires c.size > 0
  {
    if ops == [] then true
    else
      var before, op := ops[..|ops| - 1], ops[|ops| - 1];
      var live := After(c, before).live;
      Defined(c, before) && (op.Free? && op.p in live ==> FreedIndex(c, live[op.p]) < SHIFT_BITS)
  }

  predicate InUse(s: State, p: nat, i: nat) {
    p in s.live && s.live[p] == i
  }

  ghost predicate Taken(s: State, i: nat) {
    exists p :: InUse(s, p, i)
  }

  /** The mask is exactly the set of slots that live handles hold, each held once. */
  ghost predicate Exact(c: Config, s: State) {
    && s.mask < Pow2(c.buffers)
    && (forall p :: p in s.live ==> s.live[p] < c.buffers && Bit(s.mask, s.live[p]))
    && (forall i: nat :: i < c.buffers && Bit(s.mask, i) ==> Taken(s, i))
    && (forall p, q :: p in s.live && q in s.live && s.live[p] == s.live[q] ==> p == q)
  }

  /** The rounding of all slots but the last together stays below one screen. */
  predicate Sound(c: Config) {
    c.buffers < 2 || (c.buffers - 1) * (c.slot - c.size) < c.size
  }

  lemma OffsetIs(c: Config, i: nat)
    requires Valid(c)
    ensures Span(i, c.slot) == i * c.size + i * (c.slot - c.size)
  {
    SpanIs(i, c.slot);
    Distribute(i, c.size, c.slot - c.size);
  }

  /** Dividing by the unrounded size finds the slot while the accumulated rounding stays below one size. */
  lemma IndexIff(c: Config, i: nat)
    requires Valid(c)
    ensures i * (c.slot - c.size) < c.size ==> FreedIndex(c, i) == i
    ensures i * (c.slot - c.size) >= c.size ==> FreedIndex(c, i) > i
  {
    var slack := i * (c.slot - c.size);
    OffsetIs(c, i);
    MulMono(0, i, c.slot - c.size);
    if slack < c.size {
      QuotientIs(Span(i, c.slot), c.size, i, slack);
    } else {
      AboveQuotient(Span(i, c.slot), c.size, i);
    }
  }

  lemma AboveQuotient(x: nat, d: nat, q: nat)
    requires d > 0 && x >= q * d + d
    ensures x / d > q
  {
    NextRow(x / d, d);
    if x / d <= q {
      MulMono(x / d + 1, q + 1, d);
      NextRow(q, d);
      assert false;
    }
  }

  lemma SoundIndex(c: Config, i: nat)
    requires Valid(c) && Sound(c) && i < c.buffers
    ensures FreedIndex(c, i) == i
  {
    if c.buffers >= 2 {
      MulMono(i, c.buffers - 1, c.slot - c.size);
    }
    IndexIff(c, i);
  }

  // ----- runs

  lemma FreeSlotExists(c: Config, m: nat)
    requires m < Pow2(c.buffers) - 1
    ensures FirstFree(m, 0, c.buffers) < c.buffers
  {
    if FirstFree(m, 0, c.buffers) == c.buffers {
      AllBitsSet(m, c.buffers);
      assert false;
    }
  }

  lemma AllocKeeps(c: Config, s: State, p: nat, s': State)
    requires Exact(c, s) && p !in s.live && s' == AllocStep(c, s, p).0
    ensures Exact(c, s')
  {
    if s' != s {
      var i := FirstFree(s.mask, 0, c.buffers);
      FreeSlotExists(c, s.mask);
      OrBound(s.mask, i, c.buffers);
      forall j
        ensures Bit(s'.mask, j) <==> i == j || Bit(s.mask, j)
      {
        SetBit(s.mask, i, j);
      }
      forall j: nat | j < c.buffers && Bit(s'.mask, j)
        ensures Taken(s', j)
      {
        if j == i {
          assert InUse(s', p, i);
        } else {
          assert Taken(s, j);
          var q :| InUse(s, q, j);
          assert InUse(s', q, j);
        }
      }
    }
  }

  lemma {:induction false} PowMono(i: nat, j: nat)
    requires i <= j
    ensures Pow2(i) <= Pow2(j)
    decreases j
  {
    if i < j {
      PowMono(i, j - 1);
    }
  }

  lemma FreeKeeps(c: Config, s: State, p: nat, s': State)
    requires Valid(c) && Sound(c) && Exact(c, s) && p in s.live && s' == FreeStep(c, s, p)
    ensures Exact(c, s')
  {
    var i := s.live[p];
    SoundIndex(c, i);
    PowMono(c.buffers, BITS);
    forall j
      ensures Bit(s'.mask, j) <==> i != j && Bit(s.mask, j)
    {
      ClearBit(s.mask, i, BITS, j);
    }
    forall j: nat | j < c.buffers && Bit(s'.mask, j)
      ensures Taken(s', j)
    {
      assert Taken(s, j);
      var q :| InUse(s, q, j);
      assert InUse(s', q, j);
    }
  }

  /** In every run the mask is exactly the set of slots held, when the rounding is small enough. */
  lemma {:induction false} RunsKeepExact(c: Config, ops: seq<Op>)
    requires Valid(c) && Sound(c)
    ensures Exact(c, After(c, ops))
  {
    if ops == [] {
      forall i: nat
        ensures !Bit(0, i)
      {
        ZeroHasNoBits(i);
      }
    } else {
      var before, op := After(c, ops[..|ops| - 1]), ops[|ops| - 1];
      RunsKeepExact(c, ops[..|ops| - 1]);
      match op
      case Alloc(p) =>
        if p !in before.live {
          AllocKeeps(c, before, p, After(c, ops));
        }
      case Free(p) =>
        if p in before.live {
          FreeKeeps(c, before, p, After(c, ops));
        }
    }
  }

  /** Two slots do not overlap. */
  predicate Disjoint(c: Config, i: nat, j: nat) {
    Span(i, c.slot) + c.slot <= Span(j, c.slot) || Span(j, c.slot) + c.slot <= Span(i, c.slot)
  }

  /** Every live handle's slot lies inside the mapping. */
  lemma LiveSlotInside(c: Config, ops: seq<Op>, p: nat)
    requires Valid(c) && Sound(c) && p in After(c, ops).live
    ensures Span(After(c, ops).live[p], c.slot) + c.slot <= c.buffers * c.slot
  {
    RunsKeepExact(c, ops);
    SlotInside(c, After(c, ops).live[p]);
  }

  lemma SlotInside(c: Config, i: nat)
    requires i < c.buffers
    ensures Span(i, c.slot) + c.slot <= c.buffers * c.slot
  {
    SpanIs(c.buffers, c.slot);
    SpanMono(i + 1, c.buffers, c.slot);
  }

  lemma SlotsDisjoint(c: Config, i: nat, j: nat)
    requires i != j
    ensures Disjoint(c, i, j)
  {
    if i < j {
      SpanMono(i + 1, j, c.slot);
    } else {
      SpanMono(j + 1, i, c.slot);
    }
  }

  /** Live handles occupy disjoint slots. */
  lemma LiveSlotsDisjoint(c: Config, ops: seq<Op>, p: nat, q: nat)
    requires Valid(c) && Sound(c) && p in After(c, ops).live && q in After(c, ops).live && p != q
    ensures Disjoint(c, After(c, ops).live[p], After(c, ops).live[q])
  {
    RunsKeepExact(c, ops);
    SlotsDisjoint(c, After(c, ops).live[p], After(c, ops).live[q]);
  }

  /** Allocation runs out exactly when every slot is held. */
  lemma OutOfBuffersIff(c: Config, ops: seq<Op>, p: nat)
    requires Valid(c) && Sound(c) && c.present && c.buffers != 1
    ensures AllocStep(c, After(c, ops), p).1.OutOfBuffers?
            <==> forall i: nat :: i < c.buffers ==> Taken(After(c, ops), i)
  {
    var s := After(c, ops);
    RunsKeepExact(c, ops);
    if s.mask >= Pow2(c.buffers) - 1 {
      forall i: nat | i < c.buffers
        ensures Taken(s, i)
      {
        FullMaskSet(s.mask, c.buffers, i);
      }
    } else {
      var i := FirstFree(s.mask, 0, c.buffers);
      FreeSlotExists(c, s.mask);
      assert !Taken(s, i);
    }
  }

  /** The other outcomes: none without a framebuffer, an ordinary buffer when there is a single one; neither takes a
      slot. */
  lemma NoSlotTaken(c: Config, s: State, p: nat)
    ensures AllocStep(c, s, p).1.NoFramebuffer? <==> !c.present
    ensures AllocStep(c, s, p).1.Ordinary? <==> c.present && c.buffers == 1
    ensures !AllocStep(c, s, p).1.Given? ==> AllocStep(c, s, p).0 == s
    ensures AllocStep(c, s, p).1.Given? ==> p in AllocStep(c, s, p).0.live
  {
  }

  // ----- when the rounding is too large

  /** Allocates handles 0 to `k` - 1. */
  function Fill(k: nat): (ops: seq<Op>)
    ensures |ops| == k
  {
    if k == 0 then [] else Fill(k - 1) + [Alloc(k - 1)]
  }

  ghost predicate FilledTo(c: Config, s: State, k: nat) {
    && s.mask < Pow2(c.buffers)
    && (forall j: nat :: j < c.buffers ==> (Bit(s.mask, j) <==> j < k))
    && (forall p: nat :: p in s.live <==> p < k)
    && (forall p: nat :: p in s.live ==> s.live[p] == p)
  }

  lemma {:induction false} Filled(c: Config, k: nat)
    requires Valid(c) && c.present && c.buffers >= 2 && k <= c.buffers
    ensures FilledTo(c, After(c, Fill(k)), k)
    decreases k
  {
    if k == 0 {
      forall i: nat
        ensures !Bit(0, i)
      {
        ZeroHasNoBits(i);
      }
    } else {
      Filled(c, k - 1);
      assert Fill(k)[..k - 1] == Fill(k - 1);
      FillOne(c, After(c, Fill(k - 1)), k - 1);
    }
  }

  lemma FirstFreeIs(m: nat, k: nat, n: nat)
    requires k < n && !Bit(m, k) && forall j: nat :: j < k ==> Bit(m, j)
    ensures FirstFree(m, 0, n) == k
  {
  }

  lemma FillOne(c: Config, s: State, k: nat)
    requires Valid(c) && c.present && c.buffers >= 2 && k < c.buffers && FilledTo(c, s, k)
    ensures FilledTo(c, AllocStep(c, s, k).0, k + 1)
  {
    if s.mask == Pow2(c.buffers) - 1 {
      FullMaskSet(s.mask, c.buffers, k);
      assert false;
    }
    FirstFreeIs(s.mask, k, c.buffers);
    OrBound(s.mask, k, c.buffers);
    forall j: nat
      ensures Bit(AllocStep(c, s, k).0.mask, j) <==> k == j || Bit(s.mask, j)
    {
      SetBit(s.mask, k, j);
    }
  }

  /** Filling all slots and freeing the last one then leaves a bit set that no handle holds. */
  lemma LastSlotLeaks(c: Config)
    requires Valid(c) && c.present && !Sound(c)
    ensures !Exact(c, After(c, Fill(c.buffers) + [Free(c.buffers - 1)]))
  {
    var last, ops := c.buffers - 1, Fill(c.buffers) + [Free(c.buffers - 1)];
    assert ops[..|ops| - 1] == Fill(c.buffers);
    Filled(c, c.buffers);
    IndexIff(c, last);
    BitSurvives(c, After(c, Fill(c.buffers)), last);
  }

  lemma BitSurvives(c: Config, s: State, last: nat)
    requires Valid(c) && c.buffers == last + 1 && FilledTo(c, s, c.buffers) && FreedIndex(c, last) != last
    ensures !Exact(c, FreeStep(c, s, last))
  {
    var s', index := FreeStep(c, s, last), FreedIndex(c, last);
    PowMono(c.buffers, BITS);
    assert Bit(s.mask, last);
    if index < BITS {
      ClearBit(s.mask, index, BITS, last);
    }
    assert Bit(s'.mask, last);
    assert !Taken(s', last);
  }

  lemma {:induction false} SoundDefined(c: Config, ops: seq<Op>)
    requires Valid(c) && Sound(c)
    ensures Defined(c, ops)
  {
    if ops != [] {
      var before, op := ops[..|ops| - 1], ops[|ops| - 1];
      SoundDefined(c, before);
      RunsKeepExact(c, before);
      var live := After(c, before).live;
      if op.Free? && op.p in live {
        SoundIndex(c, live[op.p]);
      }
    }
  }

  /** Every run is defined and keeps the mask exact if and only if the rounding of all slots but the last stays below
      one screen. */
  lemma ExactIffSound(c: Config)
    requires Valid(c) && c.present
    ensures (forall ops :: Defined(c, ops) && Exact(c, After(c, ops))) <==> Sound(c)
  {
    if Sound(c) {
      forall ops
        ensures Defined(c, ops) && Exact(c, After(c, ops))
      {
        SoundDefined(c, ops);
        RunsKeepExact(c, ops);
      }
    } else {
      LastSlotLeaks(c);
    }
  }

  /** Two screens of 100 bytes in 4096-byte pages: freeing the second gives back slot 40. */
  lemma SmallScreenLeaks()
    ensures var c := Config(true, 2, 100, 4096);
            FreedIndex(c, 1) == 40 && !Exact(c, After(c, Fill(2) + [Free(1)]))
  {
    LastSlotLeaks(Config(true, 2, 100, 4096));
  }

  // ----- the module

  class FramebufferModule {
    const c: Config
    const base: nat              // the framebuffer's address
    var mask: nat
    var bases: map<nat, nat>     // each live handle's base address
    ghost var slots: map<nat, nat>

    ghost predicate Consistent()
      reads this
    {
      && Valid(c) && bases.Keys == slots.Keys
      && forall p :: p in slots ==> bases[p] == base + Span(slots[p], c.slot)
    }

    ghost function Abs(): State
      reads this
    {
      State(mask, slots)
    }

    /** `mapFrameBufferLocked`: a screen of `size` bytes, rounded up to pages. */
    constructor (base: nat, buffers: nat, size: nat, page: nat)
      requires 0 < size && 0 < page && buffers <= BITS
      ensures Consistent() && Abs() == State(0, map[])
      ensures c == Config(true, buffers, size, AlignUp(size, page))
    {
      LeastMultiple(size, page);
      this.base := base;
      c := Config(true, buffers, size, AlignUp(size, page));
      mask, bases, slots := 0, map[], map[];
    }

    method AllocFramebufferLocked(p: nat) returns (out: Outcome)
      requires Consistent() && p !in bases
      modifies this
      ensures Consistent() && (Abs(), out) == AllocStep(c, old(Abs()), p)
    {
      if !c.present {
        return NoFramebuffer;
      }
      if c.buffers == 1 {
        return Ordinary;
      }
      if mask >= Pow2(c.buffers) - 1 {
        return OutOfBuffers;
      }
      var vaddr, i := base, 0;
      var bufferMask := mask;
      while i < c.buffers
        invariant 0 <= i <= c.buffers && vaddr == base + Span(i, c.slot)
        invariant FirstFree(bufferMask, 0, c.buffers) == FirstFree(bufferMask, i, c.buffers)
        invariant mask == bufferMask && bases == old(bases) && slots == old(slots)
      {
        TestBit(bufferMask, i);
        if And(bufferMask, Pow2(i)) == 0 {
          mask := Or(mask, Pow2(i));
          break;
        }
        vaddr := vaddr + c.slot;
        i := i + 1;
      }
      bases := bases[p := vaddr];
      slots := slots[p := i];
      out := Given(i);
    }

    method FreeImpl(p: nat)
      requires Consistent() && p in bases
      modifies this
      ensures Consistent() && Abs() == FreeStep(c, old(Abs()), p)
    {
      var index := (bases[p] - base) / c.size;
      mask := Cleared(mask, index, BITS);
      bases := bases - {p};
      slots := slots - {p};
    }
  }
}
