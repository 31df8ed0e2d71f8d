/** Cache geometry (pa4/sim.c): the option checks of `main`, the derived
    sizes of `cache_simulate`, and the decomposition of an address into a
    marked tag and the base slot of its set.

    The C code computes with `unsigned int` / `uint32_t` bit operations; here
    each is written as its arithmetic equivalent on the unsigned value:
    `x >> n` is `x / 2^n`, `x | 0x80000000` sets bit 31 (`x % 2^31 + 2^31`),
    `x & (2^e - 1)` is `x % 2^e`, and `x & ~(2^s - 1)` is `x / 2^s * 2^s`. */
module Geometry {
  import opened Words
  import opened Wrappers

  /** `struct cache_params`. A negative `setBits` asks for a fully
      associative cache. */
  datatype Params = Params(cacheBits: int, setBits: int, lineBits: int, lru: bool)

  /** The two configuration errors `main` reports (exit status 2). */
  datatype ConfigError =
    | CacheBitsOutOfRange(cacheBits: int)
    | LineBitsOutOfRange(cacheBits: int, lineBits: int)

  const MinCacheBits: int := 2
  const MaxCacheBits: int := 24
  const MinLineBits: int := 2

  /** What every caller of `cache_simulate` guarantees: `main` after its
      checks, and the two plot generators with their fixed sizes. */
  predicate Supported(p: Params)
  {
    0 <= p.lineBits <= p.cacheBits <= MaxCacheBits &&
    p.setBits <= p.cacheBits - p.lineBits
  }

  /** The range checks of `main` and its clamp of the associativity: an
      out-of-range `set_bits` (the negative sentinel included) becomes
      `cache_bits - line_bits`, i.e. fully associative. */
  function Configure(cacheBits: int, lineBits: int, setBits: int, lru: bool)
    : (r: Result<Params, ConfigError>)
    ensures r.Success? <==>
      MinCacheBits <= cacheBits <= MaxCacheBits && MinLineBits <= lineBits <= cacheBits
    ensures !(MinCacheBits <= cacheBits <= MaxCacheBits) ==>
      r == Failure(CacheBitsOutOfRange(cacheBits))
    ensures MinCacheBits <= cacheBits <= MaxCacheBits && !(MinLineBits <= lineBits <= cacheBits) ==>
      r == Failure(LineBitsOutOfRange(cacheBits, lineBits))
    ensures r.Success? ==>
      var p := r.value;
      Supported(p) && 0 <= p.setBits &&
      p.cacheBits == cacheBits && p.lineBits == lineBits && p.lru == lru &&
      (0 <= setBits <= cacheBits - lineBits ==> p.setBits == setBits) &&
      (setBits < 0 || setBits > cacheBits - lineBits ==> p.setBits == cacheBits - lineBits)
  {
    if cacheBits < MinCacheBits || cacheBits > MaxCacheBits then
      Failure(CacheBitsOutOfRange(cacheBits))
    else if lineBits < MinLineBits || lineBits > cacheBits then
      Failure(LineBitsOutOfRange(cacheBits, lineBits))
    else
      var numLinesExp := cacheBits - lineBits;
      var s := if setBits < 0 || setBits > numLinesExp then numLinesExp else setBits;
      Success(Params(cacheBits, s, lineBits, lru))
  }

  /** `num_lines_exp`. */
  function LinesExp(p: Params): (e: nat)
    requires Supported(p)
    ensures e <= p.cacheBits
  {
    p.cacheBits - p.lineBits
  }

  /** `set_bits` inside `cache_simulate`: the negative sentinel means fully
      associative. */
  function SetBits(p: Params): (s: nat)
    requires Supported(p)
    ensures s <= LinesExp(p)
    ensures p.setBits < 0 ==> s == LinesExp(p)
    ensures 0 <= p.setBits ==> s == p.setBits
  {
    if p.setBits < 0 then LinesExp(p) else p.setBits
  }

  /** `num_lines`: the number of slots of the cache array. */
  function NumLines(p: Params): (n: nat)
    requires Supported(p)
    ensures 1 <= n
  {
    Pow2(LinesExp(p))
  }

  /** `set_size`: the number of slots of one set. */
  function SetSize(p: Params): (z: nat)
    requires Supported(p)
    ensures 1 <= z <= NumLines(p)
  {
    Pow2Monotone(SetBits(p), LinesExp(p));
    Pow2(SetBits(p))
  }

  /** The number of sets. */
  function NumSets(p: Params): (k: nat)
    requires Supported(p)
    ensures 1 <= k <= NumLines(p)
  {
    Pow2Monotone(LinesExp(p) - SetBits(p), LinesExp(p));
    Pow2(LinesExp(p) - SetBits(p))
  }

  /** The cache array splits exactly into sets. */
  lemma LinesSplitIntoSets(p: Params)
    requires Supported(p)
    ensures NumLines(p) == NumSets(p) * SetSize(p)
  {
    Pow2Add(LinesExp(p) - SetBits(p), SetBits(p));
  }

  /** After `main`'s clamp, the clamp in `cache_simulate` has nothing left
      to do: the configured `set_bits` is used as it is. */
  lemma ConfiguredSetBitsKept(cacheBits: int, lineBits: int, setBits: int, lru: bool)
    requires Configure(cacheBits, lineBits, setBits, lru).Success?
    ensures var p := Configure(cacheBits, lineBits, setBits, lru).value;
      SetBits(p) == p.setBits && 0 <= p.setBits <= LinesExp(p)
  {
  }

  /** The marker bit that keeps a tag apart from the empty slot value 0. */
  const Marker: u32 := 0x8000_0000

  /** `(addr >> line_bits) | 0x80000000` (line 101). */
  function Tag(addr: u32, lineBits: nat): (tag: u32)
    requires lineBits < 32
    ensures Marker <= tag
  {
    addr / Pow2(lineBits) % Marker + Marker
  }

  /** A 32-bit value divided by at least 2 fits in 31 bits. */
  lemma HalvedFits(x: u32, d: nat)
    requires 2 <= d
    ensures 0 <= x / d < Marker
  {
    DivMod(x, d);
    MulMonotone(x / d, 2, d);
  }

  /** With at least one offset bit, two addresses get the same tag exactly
      when they agree on every bit above the line offset. */
  lemma TagsEqualIffSameLine(a: u32, b: u32, lineBits: nat)
    requires 1 <= lineBits < 32
    ensures Tag(a, lineBits) == Tag(b, lineBits) <==> a / Pow2(lineBits) == b / Pow2(lineBits)
  {
    var d := Pow2(lineBits);
    Pow2Monotone(1, lineBits);
    HalvedFits(a, d);
    HalvedFits(b, d);
    MarkingKeepsLineNumber(a / d);
    MarkingKeepsLineNumber(b / d);
  }

  lemma MarkingKeepsLineNumber(q: nat)
    requires q < Marker
    ensures q % Marker + Marker - Marker == q
  {
  }

  /** The number of the set that `tag` maps to: the bits of the tag
      between the set bits and the line-count bits. */
  function SetIndex(tag: u32, p: Params): (j: nat)
    requires Supported(p)
    ensures j < NumSets(p)
  {
    LinesSplitIntoSets(p);
    BlockOf(tag, NumLines(p), SetSize(p), NumSets(p));
    tag % NumLines(p) / SetSize(p)
  }

  /** Reduced modulo n = k * z, a value lies in one of the k blocks of z. */
  lemma BlockOf(t: nat, n: nat, z: nat, k: nat)
    requires 0 < z && 0 < k && n == k * z
    ensures 0 <= t % n / z < k
  {
    MulMonotone(z, 1, k);
    DivMod(t, n);
    QuotientBelow(t % n, z, k);
  }

  /** `tag & (num_lines - 1) & ~(set_size - 1)` (line 102): the offset of
      the first slot of the tag's set in the cache array, a multiple of the
      set size. The whole set lies inside the array. */
  function SetBase(tag: u32, p: Params): (base: nat)
    requires Supported(p)
    ensures base + SetSize(p) <= NumLines(p)
    ensures base % SetSize(p) == 0
    ensures base <= tag % NumLines(p) < base + SetSize(p)
  {
    LinesSplitIntoSets(p);
    BlockInside(SetIndex(tag, p), SetSize(p), NumSets(p));
    RoundDown(tag % NumLines(p), SetSize(p));
    SetIndex(tag, p) * SetSize(p)
  }

  /** A fully associative cache has one set, which holds all the lines. */
  lemma FullyAssociativeHasOneSet(p: Params, tag: u32)
    requires Supported(p) && SetBits(p) == LinesExp(p)
    ensures NumSets(p) == 1 && SetSize(p) == NumLines(p) && SetBase(tag, p) == 0
  {
  }

  /** A direct-mapped cache has sets of one slot, selected by the low bits
      of the tag. */
  lemma DirectMappedSetsHaveOneSlot(p: Params, tag: u32)
    requires Supported(p) && SetBits(p) == 0
    ensures SetSize(p) == 1 && SetBase(tag, p) == tag % NumLines(p)
  {
  }
}
