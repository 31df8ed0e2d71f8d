/** The main loop of `cache_simulate` (pa4/sim.c): one flat cache array of
    `num_lines` slots, zero-initialised, split into `num_sets` sets of
    `set_size` consecutive slots; every address read from the trace is
    turned into a marked tag, its set is located, and `cache_access`
    updates that set and reports a hit or a miss. */
module Simulator {
  import opened Words
  import opened CacheSet
  import opened Geometry
  import opened TraceFormat

  /** The cache array and the hit counter after some accesses. */
  datatype State = State(cache: seq<u32>, hits: nat)

  /** The slots of set j. */
  function SetAt(p: Params, cache: seq<u32>, j: nat): (s: seq<u32>)
    requires Supported(p) && |cache| == NumLines(p) && j < NumSets(p)
    ensures |s| == SetSize(p)
  {
    LinesSplitIntoSets(p);
    BlockInside(j, SetSize(p), NumSets(p));
    cache[j * SetSize(p)..j * SetSize(p) + SetSize(p)]
  }

  /** Lines 100-103 for one address: the slots of its set are replaced by
      what `cache_access` leaves there; `hit` is its return value. */
  function Step(p: Params, cache: seq<u32>, addr: u32): (o: Outcome)
    requires Supported(p) && |cache| == NumLines(p)
    ensures |o.slots| == |cache|
  {
    var tag := Tag(addr, p.lineBits);
    var base, z := SetBase(tag, p), SetSize(p);
    var a := Access(cache[base..base + z], tag, p.lru);
    Outcome(cache[..base] + a.slots + cache[base + z..], a.hit)
  }

  /** The state after the accesses `addrs`, in order, starting from the
      zeroed cache `calloc` returns; `hits` counts the accesses that hit. */
  function Run(p: Params, addrs: seq<u32>): (st: State)
    requires Supported(p)
    ensures |st.cache| == NumLines(p)
    ensures st.hits <= |addrs|
  {
    if addrs == [] then
      State(Zeros(NumLines(p)), 0)
    else
      var prev := Run(p, addrs[..|addrs| - 1]);
      var o := Step(p, prev.cache, addrs[|addrs| - 1]);
      State(o.slots, prev.hits + if o.hit then 1 else 0)
  }

  /** The body of the `fread` loop of `cache_simulate` run over the bytes
      of the trace: `total` is the number of whole records, `hits` the
      number of them that hit, as `Run` computes it on the decoded
      addresses. */
  method Simulate(p: Params, input: seq<u8>) returns (hits: nat, total: nat)
    requires Supported(p)
    ensures total == |input| / 4
    ensures hits == Run(p, Records(input)).hits
    ensures hits <= total
  {
    var cache := new u32[NumLines(p)](_ => Empty);
    ghost var addrs := Records(input);
    hits, total := 0, 0;
    var pos := 0;
    assert cache[..] == Zeros(NumLines(p));
    while pos + 4 <= |input|
      invariant pos == 4 * total <= |input|
      invariant total <= |addrs|
      invariant cache.Length == NumLines(p)
      invariant cache[..] == Run(p, addrs[..total]).cache
      invariant hits == Run(p, addrs[..total]).hits
      decreases |input| - pos
    {
      var addr := DecodeBE(input[pos..pos + 4]);
      assert addrs[total] == addr by {
        RecordAt(input, total);
      }
      RunPrefix(p, addrs, total);
      var hit := AccessAddress(p, cache, addr);
      if hit {
        hits := hits + 1;
      }
      total := total + 1;
      pos := pos + 4;
    }
    assert addrs[..total] == addrs;
  }

  /** `Run` over one more address of a sequence of addresses. */
  lemma RunPrefix(p: Params, addrs: seq<u32>, n: nat)
    requires Supported(p) && n < |addrs|
    ensures var prev := Run(p, addrs[..n]); var o := Step(p, prev.cache, addrs[n]);
      Run(p, addrs[..n + 1]) == State(o.slots, prev.hits + if o.hit then 1 else 0)
  {
    assert addrs[..n + 1] == addrs[..n] + [addrs[n]];
    RunSnoc(p, addrs[..n], addrs[n]);
  }

  /** Lines 101-103: locate the set of `addr` in the cache array and run
      `cache_access` on it. */
  method AccessAddress(p: Params, cache: array<u32>, addr: u32) returns (hit: bool)
    requires Supported(p) && cache.Length == NumLines(p)
    modifies cache
    ensures var o := Step(p, old(cache[..]), addr); cache[..] == o.slots && hit == o.hit
  {
    var tag := Tag(addr, p.lineBits);
    var base := SetBase(tag, p);
    ghost var z := SetSize(p);
    ghost var before := cache[..];
    assert cache[base..base + z] == before[base..base + z];
    hit := CacheAccess(cache, base, SetSize(p), tag, p.lru);
    ghost var after := cache[..];
    assert after[base..base + z] == Access(before[base..base + z], tag, p.lru).slots;
    assert forall k :: 0 <= k < |after| && !(base <= k < base + z) ==> after[k] == before[k];
    StepOfCacheAccess(p, before, after, addr, tag, base, z, hit);
  }

  /** What `CacheAccess` does to the cache array is one `Step`. */
  lemma StepOfCacheAccess(p: Params, before: seq<u32>, after: seq<u32>, addr: u32,
                          tag: u32, base: nat, z: nat, hit: bool)
    requires Supported(p) && |before| == NumLines(p) && |after| == |before|
    requires tag == Tag(addr, p.lineBits) && base == SetBase(tag, p) && z == SetSize(p)
    requires after[base..base + z] == Access(before[base..base + z], tag, p.lru).slots
    requires hit == Access(before[base..base + z], tag, p.lru).hit
    requires forall k :: 0 <= k < |after| && !(base <= k < base + z) ==> after[k] == before[k]
    ensures Step(p, before, addr) == Outcome(after, hit)
  {
    var a := Access(before[base..base + z], tag, p.lru);
    Spliced(before, after, base, z);
    assert after == before[..base] + a.slots + before[base + z..];
    StepOnWindow(p, before, addr, base, z, a);
  }

  /** `Step` unfolded: the window of the tag's set is replaced by the
      slots `Access` leaves there. */
  lemma StepOnWindow(p: Params, cache: seq<u32>, addr: u32, base: nat, z: nat, a: Outcome)
    requires Supported(p) && |cache| == NumLines(p)
    requires base == SetBase(Tag(addr, p.lineBits), p) && z == SetSize(p)
    requires a == Access(cache[base..base + z], Tag(addr, p.lineBits), p.lru)
    ensures Step(p, cache, addr) == Outcome(cache[..base] + a.slots + cache[base + z..], a.hit)
  {
  }

  /** A sequence that agrees with `before` outside [base, base + z) is
      `before` with that window replaced. */
  lemma Spliced(before: seq<u32>, after: seq<u32>, base: nat, z: nat)
    requires |before| == |after| && base + z <= |before|
    requires forall k :: 0 <= k < |after| && !(base <= k < base + z) ==> after[k] == before[k]
    ensures after == before[..base] + after[base..base + z] + before[base + z..]
  {
  }

  // ---------------------------------------------------------------------
  // Properties of a run

  /** Every set of the cache is well-formed. */
  predicate SetsWellFormed(p: Params, cache: seq<u32>)
    requires Supported(p) && |cache| == NumLines(p)
  {
    forall j :: 0 <= j < NumSets(p) ==> WellFormed(SetAt(p, cache, j))
  }

  /** The tags of a list of addresses. */
  function Tags(p: Params, addrs: seq<u32>): set<u32>
    requires Supported(p)
  {
    set a | a in addrs :: Tag(a, p.lineBits)
  }

  /** Every occupied slot holds the tag of an address accessed so far. */
  predicate HoldsTagsOf(p: Params, cache: seq<u32>, addrs: seq<u32>)
    requires Supported(p)
  {
    OccupiedIn(cache, Tags(p, addrs))
  }

  /** Every occupied slot of c holds a member of `tags`. */
  predicate OccupiedIn(c: seq<u32>, tags: set<u32>)
  {
    forall k :: 0 <= k < |c| && c[k] != Empty ==> c[k] in tags
  }

  /** Replacing window i of width z (of n windows) changes window i to the
      new contents and leaves every other window as it was. */
  lemma WindowsOfSplice(c: seq<u32>, w: seq<u32>, n: nat, z: nat, i: nat, j: nat)
    requires |c| == n * z && i < n && j < n && |w| == z
    ensures i * z + z <= |c| && j * z + z <= |c|
    ensures var d := c[..i * z] + w + c[i * z + z..];
      d[j * z..j * z + z] == if j == i then w else c[j * z..j * z + z]
  {
    BlockInside(i, z, n);
    BlockInside(j, z, n);
    if j < i {
      BlockInside(j, z, i);
    } else if i < j {
      BlockInside(i, z, j);
    }
  }

  /** `Step` on set i = SetIndex(tag): the set's slots are replaced by
      what `Access` makes of them. */
  lemma StepIsSplice(p: Params, cache: seq<u32>, addr: u32)
    requires Supported(p) && |cache| == NumLines(p)
    ensures var tag := Tag(addr, p.lineBits); var i, z := SetIndex(tag, p), SetSize(p);
      var a := Access(SetAt(p, cache, i), tag, p.lru);
      i * z + z <= |cache| &&
      Step(p, cache, addr) == Outcome(cache[..i * z] + a.slots + cache[i * z + z..], a.hit)
  {
    var tag := Tag(addr, p.lineBits);
    var i, z := SetIndex(tag, p), SetSize(p);
    var base := SetBase(tag, p);
    assert base == i * z;
    assert cache[base..base + z] == SetAt(p, cache, i);
  }

  /** Replacing set i changes set i and no other set. */
  lemma SetsOfSplice(p: Params, cache: seq<u32>, w: seq<u32>, i: nat, j: nat)
    requires Supported(p) && |cache| == NumLines(p) && i < NumSets(p) && j < NumSets(p)
    requires |w| == SetSize(p)
    ensures i * SetSize(p) + SetSize(p) <= |cache|
    ensures var z := SetSize(p); var d := cache[..i * z] + w + cache[i * z + z..];
      SetAt(p, d, j) == if j == i then w else SetAt(p, cache, j)
  {
    LinesSplitIntoSets(p);
    WindowsOfSplice(cache, w, NumSets(p), SetSize(p), i, j);
  }

  /** `Step` replaces the set of the address's tag by what `Access` makes
      of it and leaves every other set as it was. */
  lemma StepUpdatesOneSet(p: Params, cache: seq<u32>, addr: u32, j: nat)
    requires Supported(p) && |cache| == NumLines(p) && j < NumSets(p)
    ensures var tag := Tag(addr, p.lineBits); var i := SetIndex(tag, p);
      var o := Step(p, cache, addr);
      SetAt(p, o.slots, j) ==
        if j == i then Access(SetAt(p, cache, i), tag, p.lru).slots else SetAt(p, cache, j)
  {
    var tag := Tag(addr, p.lineBits);
    var i := SetIndex(tag, p);
    StepIsSplice(p, cache, addr);
    SetsOfSplice(p, cache, Access(SetAt(p, cache, i), tag, p.lru).slots, i, j);
  }

  /** One more access extends the run by one step. */
  lemma RunSnoc(p: Params, addrs: seq<u32>, addr: u32)
    requires Supported(p)
    ensures var prev := Run(p, addrs); var o := Step(p, prev.cache, addr);
      Run(p, addrs + [addr]) == State(o.slots, prev.hits + if o.hit then 1 else 0)
  {
    assert (addrs + [addr])[..|addrs|] == addrs;
  }

  /** On well-formed sets, a step hits exactly when the tag is resident in
      its set, and leaves the tag resident there. */
  lemma StepHitsIffResident(p: Params, cache: seq<u32>, addr: u32)
    requires Supported(p) && |cache| == NumLines(p) && SetsWellFormed(p, cache)
    ensures var tag := Tag(addr, p.lineBits); var i := SetIndex(tag, p);
      var o := Step(p, cache, addr);
      (o.hit <==> tag in SetAt(p, cache, i)) && tag in SetAt(p, o.slots, i)
  {
    var tag := Tag(addr, p.lineBits);
    var i := SetIndex(tag, p);
    var a := Access(SetAt(p, cache, i), tag, p.lru);
    StepIsSplice(p, cache, addr);
    StepUpdatesOneSet(p, cache, addr, i);
    AccessKeepsWellFormed(SetAt(p, cache, i), tag, p.lru);
    assert Step(p, cache, addr).hit == a.hit;
    assert SetAt(p, Step(p, cache, addr).slots, i) == a.slots;
  }

  /** A step keeps every set well-formed. */
  lemma StepKeepsSetsWellFormed(p: Params, cache: seq<u32>, addr: u32)
    requires Supported(p) && |cache| == NumLines(p) && SetsWellFormed(p, cache)
    ensures SetsWellFormed(p, Step(p, cache, addr).slots)
  {
    var tag := Tag(addr, p.lineBits);
    var i := SetIndex(tag, p);
    var o := Step(p, cache, addr);
    AccessKeepsWellFormed(SetAt(p, cache, i), tag, p.lru);
    forall j | 0 <= j < NumSets(p)
      ensures WellFormed(SetAt(p, o.slots, j))
    {
      StepUpdatesOneSet(p, cache, addr, j);
    }
  }

  /** Throughout a run every set stays well-formed and holds only tags of
      addresses already accessed. */
  lemma {:induction false} RunInvariant(p: Params, addrs: seq<u32>)
    requires Supported(p)
    ensures SetsWellFormed(p, Run(p, addrs).cache)
    ensures HoldsTagsOf(p, Run(p, addrs).cache, addrs)
  {
    if addrs == [] {
      ZerosSetsWellFormed(p);
    } else {
      var init := addrs[..|addrs| - 1];
      var a := addrs[|addrs| - 1];
      var prev := Run(p, init);
      assert addrs == init + [a];
      RunSnoc(p, init, a);
      RunInvariant(p, init);
      StepKeepsSetsWellFormed(p, prev.cache, a);
      StepKeepsTags(p, prev.cache, init, a);
    }
  }

  /** The zeroed cache `calloc` returns is made of well-formed (empty) sets. */
  lemma ZerosSetsWellFormed(p: Params)
    requires Supported(p)
    ensures SetsWellFormed(p, Zeros(NumLines(p)))
  {
    forall j | 0 <= j < NumSets(p)
      ensures WellFormed(SetAt(p, Zeros(NumLines(p)), j))
    {
      ZerosWindow(p, j);
      ZerosWellFormed(SetSize(p));
    }
  }

  lemma ZerosWindow(p: Params, j: nat)
    requires Supported(p) && j < NumSets(p)
    ensures SetAt(p, Zeros(NumLines(p)), j) == Zeros(SetSize(p))
  {
    var z, n := SetSize(p), NumLines(p);
    var lo := j * z;
    assert lo + z <= n by {
      LinesSplitIntoSets(p);
      BlockInside(j, z, NumSets(p));
    }
    ZerosSlice(n, lo, lo + z);
    assert SetAt(p, Zeros(n), j) == Zeros(n)[lo..lo + z];
  }

  lemma ZerosWellFormed(n: nat)
    ensures WellFormed(Zeros(n))
  {
  }

  lemma ZerosSlice(n: nat, lo: nat, hi: nat)
    requires lo <= hi <= n
    ensures Zeros(n)[lo..hi] == Zeros(hi - lo)
  {
  }

  lemma StepKeepsTags(p: Params, cache: seq<u32>, addrs: seq<u32>, addr: u32)
    requires Supported(p) && |cache| == NumLines(p) && HoldsTagsOf(p, cache, addrs)
    ensures HoldsTagsOf(p, Step(p, cache, addr).slots, addrs + [addr])
  {
    var tag := Tag(addr, p.lineBits);
    var base, z := SetBase(tag, p), SetSize(p);
    var a := Access(cache[base..base + z], tag, p.lru);
    var tags := Tags(p, addrs + [addr]);
    assert OccupiedIn(cache, tags) && tag in tags by {
      assert Tags(p, addrs) <= tags;
    }
    var r := cache[..base] + a.slots + cache[base + z..];
    assert OccupiedIn(r, tags) by {
      WindowKeepsTags(cache, base, z, tag, p.lru, tags);
      SpliceKeepsTags(cache, a.slots, base, z, tags);
    }
    assert Step(p, cache, addr).slots == r by {
      StepOnWindow(p, cache, addr, base, z, a);
    }
  }

  /** If the occupied slots of c and the new tag are all in T, so are the
      occupied slots of the window base .. base+z after the access. */
  lemma WindowKeepsTags(c: seq<u32>, base: nat, z: nat, tag: u32, lru: bool, tags: set<u32>)
    requires 0 < z && base + z <= |c| && tag in tags
    requires OccupiedIn(c, tags)
    ensures forall x :: x in Access(c[base..base + z], tag, lru).slots && x != Empty ==> x in tags
  {
    var s := c[base..base + z];
    AccessAddsOnlyTag(s, tag, lru);
    forall x | x in s && x != Empty ensures x in tags {
      var k :| 0 <= k < z && s[k] == x;
      assert c[base + k] == x;
    }
  }

  /** Writing a window whose occupied slots hold tags of a set T into a
      cache whose occupied slots hold tags of T keeps that property. */
  lemma SpliceKeepsTags(c: seq<u32>, w: seq<u32>, base: nat, z: nat, tags: set<u32>)
    requires |w| == z && base + z <= |c|
    requires OccupiedIn(c, tags)
    requires forall x :: x in w && x != Empty ==> x in tags
    ensures OccupiedIn(c[..base] + w + c[base + z..], tags)
  {
    var r := c[..base] + w + c[base + z..];
    forall k | 0 <= k < |r| && r[k] != Empty ensures r[k] in tags {
      if base <= k < base + |w| {
        assert r[k] == w[k - base];
      } else {
        assert r[k] == c[k];
      }
    }
  }

  /** An access to a line never accessed before misses (a compulsory
      miss): the first access of every run misses. */
  lemma ColdAccessMisses(p: Params, addrs: seq<u32>, addr: u32)
    requires Supported(p)
    requires forall a :: a in addrs ==> Tag(a, p.lineBits) != Tag(addr, p.lineBits)
    ensures Run(p, addrs + [addr]).hits == Run(p, addrs).hits
  {
    var tag := Tag(addr, p.lineBits);
    var prev := Run(p, addrs);
    RunInvariant(p, addrs);
    StepHitsIffResident(p, prev.cache, addr);
    assert (addrs + [addr])[..|addrs|] == addrs;
    assert tag !in SetAt(p, prev.cache, SetIndex(tag, p));
  }

  /** A resident tag stays resident while the accesses that follow all go
      to other sets. */
  lemma {:induction false} StaysResident(p: Params, pre: seq<u32>, mid: seq<u32>, tag: u32)
    requires Supported(p)
    requires tag in SetAt(p, Run(p, pre).cache, SetIndex(tag, p))
    requires forall x :: x in mid ==> SetIndex(Tag(x, p.lineBits), p) != SetIndex(tag, p)
    ensures tag in SetAt(p, Run(p, pre + mid).cache, SetIndex(tag, p))
    decreases |mid|
  {
    var i := SetIndex(tag, p);
    if mid == [] {
      assert pre + mid == pre;
    } else {
      var init, x := mid[..|mid| - 1], mid[|mid| - 1];
      assert x in mid && forall y :: y in init ==> y in mid by {
        assert mid == init + [x];
      }
      StaysResident(p, pre, init, tag);
      var c := Run(p, pre + init).cache;
      assert Run(p, pre + mid).cache == Step(p, c, x).slots by {
        AppendLast(pre, mid);
        RunSnoc(p, pre + init, x);
      }
      StepElsewhereKeepsSet(p, c, x, i);
    }
  }

  lemma AppendLast(pre: seq<u32>, mid: seq<u32>)
    requires mid != []
    ensures pre + mid == (pre + mid[..|mid| - 1]) + [mid[|mid| - 1]]
  {
    assert mid == mid[..|mid| - 1] + [mid[|mid| - 1]];
  }

  /** An access to another set leaves set i as it was. */
  lemma StepElsewhereKeepsSet(p: Params, cache: seq<u32>, addr: u32, i: nat)
    requires Supported(p) && |cache| == NumLines(p) && i < NumSets(p)
    requires SetIndex(Tag(addr, p.lineBits), p) != i
    ensures SetAt(p, Step(p, cache, addr).slots, i) == SetAt(p, cache, i)
  {
    StepUpdatesOneSet(p, cache, addr, i);
  }

  /** An access hits when its line was accessed earlier and no access
      since went to the same set, whatever the geometry and the policy. */
  lemma UntouchedLineHits(p: Params, addrs: seq<u32>, a: u32, mid: seq<u32>, b: u32)
    requires Supported(p)
    requires Tag(a, p.lineBits) == Tag(b, p.lineBits)
    requires forall x :: x in mid ==>
      SetIndex(Tag(x, p.lineBits), p) != SetIndex(Tag(a, p.lineBits), p)
    ensures Run(p, addrs + [a] + mid + [b]).hits == Run(p, addrs + [a] + mid).hits + 1
  {
    var tag := Tag(a, p.lineBits);
    var before := addrs + [a] + mid;
    RunSnoc(p, addrs, a);
    RunInvariant(p, addrs);
    StepHitsIffResident(p, Run(p, addrs).cache, a);
    StaysResident(p, addrs + [a], mid, tag);
    RunInvariant(p, before);
    StepHitsIffResident(p, Run(p, before).cache, b);
    RunSnoc(p, before, b);
  }

  /** An access to the line accessed just before hits, whatever the
      geometry and the policy. */
  lemma SameLineAgainHits(p: Params, addrs: seq<u32>, a: u32, b: u32)
    requires Supported(p)
    requires a / Pow2(p.lineBits) == b / Pow2(p.lineBits)
    ensures Run(p, addrs + [a, b]).hits == Run(p, addrs + [a]).hits + 1
  {
    assert Tag(a, p.lineBits) == Tag(b, p.lineBits);
    assert addrs + [a, b] == (addrs + [a]) + [b];
    RunSnoc(p, addrs, a);
    RunSnoc(p, addrs + [a], b);
    RunInvariant(p, addrs);
    RunInvariant(p, addrs + [a]);
    StepHitsIffResident(p, Run(p, addrs).cache, a);
    StepHitsIffResident(p, Run(p, addrs + [a]).cache, b);
  }
}
