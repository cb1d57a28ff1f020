/** Component signatures: the 32-bit masks kept per entity, per system and per query. */
module Signatures {

  /** `n` as a 6-bit shift amount, counted up one step at a time. */
  function Index(n: nat): (b: bv6)
    requires n < 64
  {
    if n == 0 then 0 else Index(n - 1) + 1
  }

  lemma {:induction false} IndexValue(n: nat)
    requires n < 64
    ensures Index(n) as int == n
  {
    if n > 0 {
      IndexValue(n - 1);
      IndexStep(Index(n - 1));
    }
  }

  /** The facts about `Index` the bit lemmas need, with no integer conversion left in them. */
  lemma IndexBound(n: nat)
    requires n < 32
    ensures Index(n) < 32 && Index(n + 1) == Index(n) + 1
  {
    IndexValue(n);
  }

  lemma IndexStep(b: bv6)
    requires b < 63
    ensures (b + 1) as int == b as int + 1
  {
  }

  /** The mask given to the `n`-th registered component type: `1 << n`, built one
      shift at a time. */
  function Bit(n: nat): (m: bv32)
    requires n < 32
  {
    if n == 0 then 1 else Bit(n - 1) << 1
  }

  /** The bits of the first `n` registered component types: every mask handed out
      so far, and so every bit a signature may carry. */
  function Window(n: nat): (m: bv32)
    requires n <= 32
  {
    if n == 32 then 0xFFFF_FFFF else Bit(n) - 1
  }

  /** `Bit` in closed form, over a 6-bit shift amount. */
  function BitAt(b: bv6): (m: bv32)
    requires b < 32
  {
    (1 as bv32) << b
  }

  lemma BitAtStep(b: bv6)
    requires b < 31
    ensures BitAt(b + 1) == BitAt(b) << 1
  {
  }

  lemma {:induction false} BitClosedForm(n: nat)
    requires n < 32
    ensures Index(n) < 32 && Bit(n) == BitAt(Index(n))
  {
    IndexBound(n);
    if n > 0 {
      BitClosedForm(n - 1);
      IndexBound(n - 1);
      BitAtStep(Index(n - 1));
    }
  }

  /** The subset test used everywhere: `(sig & required) == required`. */
  predicate Contains(sig: bv32, required: bv32) {
    sig & required == required
  }

  predicate IsSingleBit(m: bv32) {
    m != 0 && m & (m - 1) == 0
  }

  /** The `n`-th mask is a single bit outside the first `n` masks' window, and the
      next window holds both it and the old window. */
  lemma BitFacts(n: nat)
    requires n < 32
    ensures IsSingleBit(Bit(n))
    ensures Bit(n) & Window(n) == 0
    ensures Contains(Window(n + 1), Bit(n))
    ensures Contains(Window(n + 1), Window(n))
  {
    BitClosedForm(n);
    if n < 31 {
      BitClosedForm(n + 1);
      IndexBound(n);
    }
    BitAtFacts(Index(n));
  }

  lemma BitAtFacts(b: bv6)
    requires b < 32
    ensures IsSingleBit(BitAt(b))
    ensures BitAt(b) & (BitAt(b) - 1) == 0
    ensures b < 31 ==> Contains(BitAt(b + 1) - 1, BitAt(b))
    ensures b < 31 ==> Contains(BitAt(b + 1) - 1, BitAt(b) - 1)
  {
  }

  /** Registering one more type widens the window by exactly the new bit: what was
      inside stays inside, and shares no bit with the new mask. */
  lemma WindowGrow(n: nat, m: bv32)
    requires n < 32
    requires Contains(Window(n), m)
    ensures Contains(Window(n + 1), m)
    ensures m & Bit(n) == 0
    ensures m != 0 ==> m != Bit(n)
  {
    BitFacts(n);
    var w, wide, b := Window(n), Window(n + 1), Bit(n);
    Widen(m, w, wide, b);
  }

  lemma Widen(m: bv32, w: bv32, wide: bv32, b: bv32)
    requires Contains(w, m) && Contains(wide, w) && b & w == 0
    ensures Contains(wide, m) && m & b == 0
    ensures m != 0 ==> m != b
  {
  }

  /** Two different single-bit masks share no bit. */
  lemma SingleBitsDisjoint(a: bv32, b: bv32)
    requires IsSingleBit(a) && IsSingleBit(b) && a != b
    ensures a & b == 0
  {
  }

  /** No single-bit mask is contained in the empty signature. */
  lemma EmptyContainsNoBit(m: bv32)
    requires IsSingleBit(m)
    ensures !Contains(0, m)
  {
  }

  /** Setting bits disjoint from `m` does not change whether `m` is contained. */
  lemma OrKeepsOthers(sig: bv32, added: bv32, m: bv32)
    requires added & m == 0
    ensures Contains(sig | added, m) <==> Contains(sig, m)
  {
    OrDisjoint(sig, added, m);
  }

  lemma OrDisjoint(sig: bv32, added: bv32, m: bv32)
    requires added & m == 0
    ensures (sig | added) & m == sig & m
  {
  }

  /** Setting `m` makes it contained. */
  lemma OrSets(sig: bv32, m: bv32)
    ensures Contains(sig | m, m)
  {
  }

  /** Clearing bits disjoint from `m` does not change whether `m` is contained. */
  lemma ClearKeepsOthers(sig: bv32, cleared: bv32, m: bv32)
    requires cleared & m == 0
    ensures Contains(sig & !cleared, m) <==> Contains(sig, m)
  {
    ClearDisjoint(sig, cleared, m);
  }

  lemma ClearDisjoint(sig: bv32, cleared: bv32, m: bv32)
    requires cleared & m == 0
    ensures (sig & !cleared) & m == sig & m
  {
  }

  /** Clearing a non-zero mask leaves it uncontained. */
  lemma ClearRemoves(sig: bv32, m: bv32)
    requires m != 0
    ensures !Contains(sig & !m, m)
  {
  }

  /** Requiring `a | b` is requiring both `a` and `b`. */
  lemma ContainsUnion(sig: bv32, a: bv32, b: bv32)
    ensures Contains(sig, a | b) <==> Contains(sig, a) && Contains(sig, b)
  {
    Distribute(sig, a, b);
    if Contains(sig, a | b) {
      Absorb(sig, a, b);
      Absorb(sig, b, a);
    }
  }

  lemma Distribute(sig: bv32, a: bv32, b: bv32)
    ensures sig & (a | b) == (sig & a) | (sig & b)
  {
  }

  lemma Absorb(sig: bv32, a: bv32, b: bv32)
    requires sig & (a | b) == a | b
    ensures sig & a == a
  {
  }

  /** The empty requirement is met by every signature. */
  lemma ContainsNothing(sig: bv32)
    ensures Contains(sig, 0)
  {
  }

  lemma DisjointNotContained(sig: bv32, m: bv32)
    requires sig & m == 0 && m != 0
    ensures !Contains(sig, m)
  {
  }

  /** A requirement widened by `mask`: met exactly by the signatures that meet both. */
  function Require(required: bv32, mask: bv32): (r: bv32)
    ensures forall sig: bv32 :: Contains(sig, r) <==> Contains(sig, required) && Contains(sig, mask)
  {
    ContainsUnionAll(required, mask);
    required | mask
  }

  lemma ContainsNothingAll()
    ensures forall sig: bv32 :: Contains(sig, 0)
  {
    forall sig: bv32
      ensures Contains(sig, 0)
    {
      ContainsNothing(sig);
    }
  }

  lemma ContainsUnionAll(a: bv32, b: bv32)
    ensures forall sig: bv32 :: Contains(sig, a | b) <==> Contains(sig, a) && Contains(sig, b)
  {
    forall sig: bv32
      ensures Contains(sig, a | b) <==> Contains(sig, a) && Contains(sig, b)
    {
      ContainsUnion(sig, a, b);
    }
  }
}
