/** One associativity set of the simulated cache and `cache_access`
    (pa4/sim.c). A set is a run of `set_size` slots of the flat tag array;
    a slot holds a marked tag, or 0 when it is empty. Occupied slots form a
    prefix of the set, oldest (or least recently used) first. */
module CacheSet {
  import opened Words

  /** The value of an empty slot (the cache array is allocated with calloc). */
  const Empty: u32 := 0

  /** The new contents of the set and whether the access was a hit. */
  datatype Outcome = Outcome(slots: seq<u32>, hit: bool)

  /** Where the scan of `cache_access` stops, starting at `from`: the first
      slot that is empty or holds `tag`, or |s| when there is none. */
  function Probe(s: seq<u32>, tag: u32, from: nat): (i: nat)
    requires from <= |s|
    ensures from <= i <= |s|
    ensures forall k :: from <= k < i ==> s[k] != Empty && s[k] != tag
    ensures i < |s| ==> s[i] == Empty || s[i] == tag
    decreases |s| - from
  {
    if from == |s| || s[from] == Empty || s[from] == tag then from
    else Probe(s, tag, from + 1)
  }

  /** Where the LRU promotion loop stops, starting at a hit in slot i: the
      last slot of the run of occupied slots that begins at i. */
  function RunEnd(s: seq<u32>, i: nat): (j: nat)
    requires i < |s|
    ensures i <= j < |s|
    ensures forall k :: i < k <= j ==> s[k] != Empty
    ensures j + 1 == |s| || s[j + 1] == Empty
    decreases |s| - i
  {
    if i + 1 == |s| || s[i + 1] == Empty then i else RunEnd(s, i + 1)
  }

  /** `cache_access` on the contents of one set, as a function.
      - the scan reaches an empty slot first: the tag is written there (miss);
      - the scan finds the tag: hit; under LRU the later occupied slots move
        down by one and the tag goes to the last of them;
      - neither: slot 0 is evicted, the others move down, the tag goes last. */
  function Access(s: seq<u32>, tag: u32, lru: bool): (o: Outcome)
    requires |s| > 0
    ensures |o.slots| == |s|
  {
    var i := Probe(s, tag, 0);
    if i == |s| then
      Outcome(s[1..] + [tag], false)
    else if s[i] == Empty then
      var r := s[i := tag];
      assert r[i] == tag;
      Outcome(r, false)
    else if !lru then
      Outcome(s, true)
    else
      var j := RunEnd(s, i);
      assert s == s[..i] + [s[i]] + s[i + 1..j + 1] + s[j + 1..];
      Outcome(s[..i] + s[i + 1..j + 1] + [tag] + s[j + 1..], true)
  }

  /** An access stores the tag in the set and brings in nothing else. */
  lemma AccessAddsOnlyTag(s: seq<u32>, tag: u32, lru: bool)
    requires |s| > 0
    ensures var o := Access(s, tag, lru);
      tag in o.slots && forall x :: x in o.slots ==> x in s || x == tag
  {
    var o := Access(s, tag, lru).slots;
    assert |o| == |s|;
    forall x | x in o ensures x in s || x == tag {
      var k :| 0 <= k < |o| && o[k] == x;
      var i := Probe(s, tag, 0);
      if i == |s| {
        assert o == s[1..] + [tag];
        assert k + 1 < |s| ==> o[k] == s[k + 1];
      } else if s[i] == Empty || !lru {
        assert k != i ==> o[k] == s[k];
      } else {
        var j := RunEnd(s, i);
        assert o == s[..i] + s[i + 1..j + 1] + [tag] + s[j + 1..];
        assert k < i || j < k ==> o[k] == s[k];
        assert i <= k < j ==> o[k] == s[k + 1];
      }
    }
    TagStored(s, tag, lru);
  }

  lemma TagStored(s: seq<u32>, tag: u32, lru: bool)
    requires |s| > 0
    ensures tag in Access(s, tag, lru).slots
  {
    var o := Access(s, tag, lru).slots;
    var i := Probe(s, tag, 0);
    if i == |s| {
      assert o[|s| - 1] == tag;
    } else if s[i] == Empty || !lru {
      assert o[i] == tag;
    } else {
      var j := RunEnd(s, i);
      assert o == s[..i] + s[i + 1..j + 1] + [tag] + s[j + 1..];
      assert o[j] == tag;
    }
  }

  /** Slots 0 .. i-1 are all occupied. */
  predicate Occupied(s: seq<u32>, i: nat)
    requires i <= |s|
  {
    forall k :: 0 <= k < i ==> s[k] != Empty
  }

  /** The invariant of a set: empty slots trail the occupied ones, and no
      tag is resident twice. */
  predicate WellFormed(s: seq<u32>)
  {
    (forall i, j :: 0 <= i < j < |s| && s[i] == Empty ==> s[j] == Empty) &&
    (forall i, j :: 0 <= i < j < |s| && s[i] != Empty ==> s[i] != s[j])
  }

  /** Number of occupied slots at the front of the set. */
  function Filled(s: seq<u32>): (n: nat)
    ensures n <= |s|
    ensures forall k :: 0 <= k < n ==> s[k] != Empty
    ensures n < |s| ==> s[n] == Empty
  {
    if s == [] || s[0] == Empty then 0 else 1 + Filled(s[1..])
  }

  /** The resident tags, oldest (least recently used) first. */
  function Resident(s: seq<u32>): seq<u32>
  {
    s[..Filled(s)]
  }

  function Zeros(n: nat): (z: seq<u32>)
    ensures |z| == n && forall k :: 0 <= k < n ==> z[k] == Empty
  {
    seq(n, _ => Empty)
  }

  predicate Distinct(q: seq<u32>)
  {
    forall i, j :: 0 <= i < j < |q| ==> q[i] != q[j]
  }

  function IndexOf(q: seq<u32>, x: u32): (i: nat)
    requires x in q
    ensures i < |q| && q[i] == x
    ensures forall k :: 0 <= k < i ==> q[k] != x
  {
    if q[0] == x then 0 else 1 + IndexOf(q[1..], x)
  }

  /** The replacement policies on a list of resident tags, oldest first: an
      independent statement of what a set does. A hit under LRU moves the tag
      to the end; a miss appends the tag, dropping the oldest tag when the
      list is already at capacity. */
  function ListAccess(q: seq<u32>, capacity: nat, tag: u32, lru: bool): (o: Outcome)
    requires 0 < capacity && |q| <= capacity
    ensures o.hit <==> tag in q
    ensures |o.slots| <= capacity
  {
    if tag in q then
      var t := IndexOf(q, tag);
      Outcome(if lru then q[..t] + q[t + 1..] + [tag] else q, true)
    else if |q| < capacity then
      Outcome(q + [tag], false)
    else
      Outcome(q[1..] + [tag], false)
  }

  // ---------------------------------------------------------------------
  // The list view of a well-formed set

  lemma {:induction false} Decompose(s: seq<u32>)
    requires WellFormed(s)
    ensures s == Resident(s) + Zeros(|s| - Filled(s))
    ensures Distinct(Resident(s)) && Empty !in Resident(s)
  {
    var n := Filled(s);
    assert n < |s| ==> s[n] == Empty;
    assert forall k :: n <= k < |s| ==> s[k] == Empty;
    assert s == s[..n] + Zeros(|s| - n);
  }

  lemma {:induction false} Compose(q: seq<u32>, m: nat)
    requires Distinct(q) && Empty !in q && |q| <= m
    ensures WellFormed(q + Zeros(m - |q|))
    ensures Filled(q + Zeros(m - |q|)) == |q|
    ensures Resident(q + Zeros(m - |q|)) == q
  {
    var s := q + Zeros(m - |q|);
    assert forall k :: 0 <= k < |q| ==> s[k] == q[k] && s[k] != Empty;
    assert forall k :: |q| <= k < m ==> s[k] == Empty;
    assert |q| < m ==> s[|q|] == Empty;
    var n := Filled(s);
    assert n == |q|;
    assert s[..n] == q;
  }

  lemma {:induction false} ListAccessKeepsDistinct(q: seq<u32>, capacity: nat, tag: u32, lru: bool)
    requires 0 < capacity && |q| <= capacity
    requires Distinct(q) && Empty !in q && tag != Empty
    ensures var r := ListAccess(q, capacity, tag, lru).slots;
      Distinct(r) && Empty !in r && |r| <= capacity && tag in r
  {
    if tag in q {
      var t := IndexOf(q, tag);
      if lru {
        var r := q[..t] + q[t + 1..] + [tag];
        assert forall k :: 0 <= k < |r| - 1 ==> r[k] == q[if k < t then k else k + 1];
        forall i, j | 0 <= i < j < |r| ensures r[i] != r[j] {
          if j < |r| - 1 {
            assert q[if i < t then i else i + 1] != q[if j < t then j else j + 1];
          } else {
            assert r[j] == q[t];
            assert q[if i < t then i else i + 1] != q[t];
          }
        }
      }
    } else if |q| < capacity {
      var r := q + [tag];
      forall i, j | 0 <= i < j < |r| ensures r[i] != r[j] {
        if j < |q| { assert r[i] == q[i] && r[j] == q[j]; }
      }
    } else {
      var r := q[1..] + [tag];
      forall i, j | 0 <= i < j < |r| ensures r[i] != r[j] {
        if j < |r| - 1 { assert r[i] == q[i + 1] && r[j] == q[j + 1]; }
        else { assert r[i] == q[i + 1]; }
      }
    }
  }

  lemma AccessOnLayoutHit(q: seq<u32>, m: nat, tag: u32, lru: bool)
    requires Empty !in q && |q| <= m && tag in q
    ensures var r := ListAccess(q, m, tag, lru);
      Access(q + Zeros(m - |q|), tag, lru) == Outcome(r.slots + Zeros(m - |r.slots|), true)
  {
    var s, n, t := q + Zeros(m - |q|), |q|, IndexOf(q, tag);
    assert forall k :: 0 <= k < n ==> s[k] == q[k];
    assert s[t] == tag;
    assert Probe(s, tag, 0) == t;
    if lru {
      LayoutRunEnd(q, m, t);
      assert s[..t] == q[..t];
      assert s[t + 1..n] == q[t + 1..];
      assert s[n..] == Zeros(m - n);
    }
  }

  /** In a set laid out as q followed by empty slots, the run of occupied
      slots from any resident entry ends at the last resident entry. */
  lemma LayoutRunEnd(q: seq<u32>, m: nat, t: nat)
    requires Empty !in q && t < |q| <= m
    ensures RunEnd(q + Zeros(m - |q|), t) == |q| - 1
  {
    var s, n := q + Zeros(m - |q|), |q|;
    assert forall k :: 0 <= k < n ==> s[k] == q[k];
    assert n < m ==> s[n] == Empty;
    PromotedRun(s, t, n - 1);
  }

  lemma AccessOnLayoutMiss(q: seq<u32>, m: nat, tag: u32, lru: bool)
    requires Empty !in q && |q| <= m && 0 < m && tag != Empty && tag !in q
    ensures var r := ListAccess(q, m, tag, lru);
      Access(q + Zeros(m - |q|), tag, lru) == Outcome(r.slots + Zeros(m - |r.slots|), false)
  {
    var s, n := q + Zeros(m - |q|), |q|;
    assert forall k :: 0 <= k < n ==> s[k] == q[k];
    if n < m {
      assert s[n] == Empty;
      assert Probe(s, tag, 0) == n;
      assert s[n := tag] == (q + [tag]) + Zeros(m - n - 1);
    } else {
      assert s == q;
      assert Probe(s, tag, 0) == m;
    }
  }

  /** The new slots of a set whose resident tags are q are the new resident
      list of the list view, followed by empty slots. */
  lemma AccessOnLayout(q: seq<u32>, m: nat, tag: u32, lru: bool)
    requires Empty !in q && |q| <= m && 0 < m && tag != Empty
    ensures var r := ListAccess(q, m, tag, lru);
      Access(q + Zeros(m - |q|), tag, lru) == Outcome(r.slots + Zeros(m - |r.slots|), r.hit)
  {
    if tag in q {
      AccessOnLayoutHit(q, m, tag, lru);
    } else {
      AccessOnLayoutMiss(q, m, tag, lru);
    }
  }

  /** On a well-formed set and a nonzero tag, `cache_access` does exactly what
      the list view prescribes, and the set stays well-formed. */
  lemma AccessRefinesListAccess(s: seq<u32>, tag: u32, lru: bool)
    requires |s| > 0 && WellFormed(s) && tag != Empty
    ensures var o := Access(s, tag, lru);
      var r := ListAccess(Resident(s), |s|, tag, lru);
      WellFormed(o.slots) && Resident(o.slots) == r.slots && o.hit == r.hit
  {
    Decompose(s);
    AccessOnLayout(Resident(s), |s|, tag, lru);
    var r := ListAccess(Resident(s), |s|, tag, lru);
    ListAccessKeepsDistinct(Resident(s), |s|, tag, lru);
    Compose(r.slots, |s|);
  }

  // ---------------------------------------------------------------------
  // The cases of `cache_access`, one by one

  /** A miss that reaches an empty slot at i writes the tag there and
      changes nothing else. */
  lemma MissFillsEmptySlot(s: seq<u32>, tag: u32, lru: bool, i: nat)
    requires i < |s| && s[i] == Empty
    requires forall k :: 0 <= k < i ==> s[k] != Empty && s[k] != tag
    ensures Access(s, tag, lru) == Outcome(s[i := tag], false)
  {
    assert Probe(s, tag, 0) == i;
  }

  /** Under FIFO a hit leaves the set as it was. */
  lemma FifoHitKeepsSet(s: seq<u32>, tag: u32, i: nat)
    requires i < |s| && s[i] == tag && tag != Empty
    requires forall k :: 0 <= k < i ==> s[k] != Empty && s[k] != tag
    ensures Access(s, tag, false) == Outcome(s, true)
  {
    assert Probe(s, tag, 0) == i;
  }

  /** Moving entry i of a list to its end permutes the list. */
  lemma PromotedPermutes(q: seq<u32>, i: nat)
    requires i < |q|
    ensures multiset(q[..i] + q[i + 1..] + [q[i]]) == multiset(q)
  {
    assert q == q[..i] + [q[i]] + q[i + 1..];
  }

  /** The slots after promoting resident tag i to the end of the list. */
  lemma {:induction false} PromotedShape(q: seq<u32>, m: nat, i: nat)
    requires i < |q| <= m
    ensures var s := q + Zeros(m - |q|);
      var o := (q[..i] + q[i + 1..] + [q[i]]) + Zeros(m - |q|);
      |o| == m &&
      (forall k :: 0 <= k < i ==> o[k] == s[k]) &&
      (forall k :: i <= k < |q| - 1 ==> o[k] == s[k + 1]) &&
      o[|q| - 1] == q[i] &&
      (forall k :: |q| <= k < m ==> o[k] == s[k] == Empty) &&
      multiset(o) == multiset(s)
  {
    var before, after, z := q[..i], q[i + 1..], Zeros(m - |q|);
    var s := q + z;
    var promoted := before + after + [q[i]];
    var o := promoted + z;
    assert forall k :: 0 <= k < i ==> o[k] == before[k] == s[k];
    assert forall k :: i <= k < |q| - 1 ==> o[k] == after[k - i] == s[k + 1];
    assert forall k :: |q| <= k < m ==> o[k] == z[k - |q|] == s[k];
    PromotedPermutes(q, i);
    assert multiset(o) == multiset(promoted) + multiset(z);
  }

  /** Under LRU a hit on resident tag i of a well-formed set (by `Decompose`
      and `Compose`, a list q of distinct tags followed by empty slots) keeps
      the slots before i, moves the later occupied slots down by one and
      puts the tag in the last occupied slot; the empty slots stay empty and
      the contents are a permutation of the old ones. */
  lemma LruHitPromotes(q: seq<u32>, m: nat, i: nat)
    requires Distinct(q) && Empty !in q && i < |q| <= m
    ensures var s := q + Zeros(m - |q|); var o := Access(s, q[i], true);
      o.hit &&
      (forall k :: 0 <= k < i ==> o.slots[k] == s[k]) &&
      (forall k :: i <= k < |q| - 1 ==> o.slots[k] == s[k + 1]) &&
      o.slots[|q| - 1] == q[i] &&
      (forall k :: |q| <= k < m ==> o.slots[k] == Empty) &&
      multiset(o.slots) == multiset(s)
  {
    var promoted := q[..i] + q[i + 1..] + [q[i]];
    assert ListAccess(q, m, q[i], true) == Outcome(promoted, true) by {
      assert IndexOf(q, q[i]) == i;
    }
    AccessOnLayout(q, m, q[i], true);
    assert Access(q + Zeros(m - |q|), q[i], true) == Outcome(promoted + Zeros(m - |q|), true);
    PromotedShape(q, m, i);
  }

  /** The scan hits exactly when the tag is found before the first empty slot. */
  lemma AccessHitsIffFoundBeforeEmpty(s: seq<u32>, tag: u32, lru: bool)
    requires |s| > 0
    ensures Access(s, tag, lru).hit <==>
      exists i :: 0 <= i < |s| && s[i] == tag && tag != Empty && Occupied(s, i)
  {
    var p := Probe(s, tag, 0);
    if Access(s, tag, lru).hit {
      assert s[p] == tag && Occupied(s, p);
    } else {
      forall i | 0 <= i < |s| && s[i] == tag && tag != Empty
        ensures !Occupied(s, i)
      {
        assert p <= i;
        assert p < |s| && s[p] == Empty;
      }
    }
  }

  /** A miss in a full set evicts slot 0, moves slots 1 .. n-1 down and puts
      the tag in slot n-1, under both policies. */
  lemma EvictsOldestWhenFull(s: seq<u32>, tag: u32, lru: bool)
    requires |s| > 0
    requires forall k :: 0 <= k < |s| ==> s[k] != Empty && s[k] != tag
    ensures Access(s, tag, lru) == Outcome(s[1..] + [tag], false)
  {
    assert Probe(s, tag, 0) == |s|;
  }

  /** `cache_access` keeps a set well-formed; on a well-formed set it hits
      exactly when the tag is resident, and afterwards the tag is resident. */
  lemma AccessKeepsWellFormed(s: seq<u32>, tag: u32, lru: bool)
    requires |s| > 0 && WellFormed(s) && tag != Empty
    ensures var o := Access(s, tag, lru);
      WellFormed(o.slots) && (o.hit <==> tag in s) && tag in Resident(o.slots)
  {
    AccessRefinesListAccess(s, tag, lru);
    Decompose(s);
    ListAccessKeepsDistinct(Resident(s), |s|, tag, lru);
  }

  // ---------------------------------------------------------------------
  // The in-place algorithm

  /** The LRU branch of `Access`, for the proof of `CacheAccess`. */
  lemma AccessLruHit(s: seq<u32>, tag: u32, i: nat)
    requires i < |s| && Probe(s, tag, 0) == i && s[i] == tag && tag != Empty
    ensures var j := RunEnd(s, i);
      Access(s, tag, true) == Outcome(s[..i] + s[i + 1..j + 1] + [tag] + s[j + 1..], true)
  {
  }

  /** `cache_access(set, tag, set_size, lru)` where `set` points at slot
      `base` of the flat cache array. Returns true on a hit. */
  method CacheAccess(cache: array<u32>, base: nat, setSize: nat, tag: u32, lru: bool)
    returns (hit: bool)
    requires 0 < setSize && base + setSize <= cache.Length
    modifies cache
    ensures var o := Access(old(cache[base..base + setSize]), tag, lru);
      cache[base..base + setSize] == o.slots && hit == o.hit
    ensures forall k :: 0 <= k < cache.Length && !(base <= k < base + setSize) ==>
      cache[k] == old(cache[k])
  {
    ghost var s := cache[base..base + setSize];
    var i := 0;
    while i < setSize
      invariant 0 <= i <= setSize
      invariant forall k :: 0 <= k < i ==> s[k] != Empty && s[k] != tag
    {
      if cache[base + i] == Empty {
        // miss, but a free slot
        cache[base + i] := tag;
        assert Probe(s, tag, 0) == i;
        assert cache[base..base + setSize] == s[i := tag];
        return false;
      }
      if cache[base + i] == tag {
        // hit
        assert s[i] == tag && Probe(s, tag, 0) == i;
        if lru {
          PromoteToLast(cache, base, setSize, i, tag);
          AccessLruHit(s, tag, i);
        }
        return true;
      }
      i := i + 1;
    }
    // miss, eviction required
    assert Probe(s, tag, 0) == setSize;
    EvictOldest(cache, base, setSize, tag);
    return false;
  }

  /** The LRU promotion of `cache_access`: starting at the hit in slot i,
      move each following occupied slot down by one, then store the tag in
      the last slot reached. */
  method PromoteToLast(cache: array<u32>, base: nat, setSize: nat, i: nat, tag: u32)
    requires i < setSize && base + setSize <= cache.Length
    modifies cache
    ensures var s := old(cache[base..base + setSize]); var j := RunEnd(s, i);
      cache[base..base + setSize] == s[..i] + s[i + 1..j + 1] + [tag] + s[j + 1..]
    ensures forall k :: 0 <= k < cache.Length && !(base <= k < base + setSize) ==>
      cache[k] == old(cache[k])
  {
    ghost var c := cache[..];
    var p := ShiftRun(cache, base, setSize, i);
    cache[base + p] := tag;
    assert cache[..] == ShiftDown(c, base + i, base + p)[base + p := tag];
    PromotedWindow(c, base, setSize, i, p, tag);
  }

  /** The loop of the promotion: move slots down until the next one is
      empty or the set ends; the stopping slot is returned. */
  method ShiftRun(cache: array<u32>, base: nat, setSize: nat, i: nat) returns (p: nat)
    requires i < setSize && base + setSize <= cache.Length
    modifies cache
    ensures p == RunEnd(old(cache[base..base + setSize]), i)
    ensures forall k :: 0 <= k < cache.Length ==>
      cache[k] == if base + i <= k < base + p then old(cache[k + 1]) else old(cache[k])
  {
    ghost var c := cache[..];
    ghost var s := c[base..base + setSize];
    p := i;
    while p < setSize - 1 && cache[base + p + 1] != Empty
      invariant i <= p < setSize
      invariant forall k :: i < k <= p ==> s[k] != Empty
      invariant forall k {:trigger cache[k]} :: 0 <= k < cache.Length ==>
        cache[k] == if base + i <= k < base + p then c[k + 1] else c[k]
    {
      assert cache[base + p + 1] == c[base + p + 1];
      assert c[base + p + 1] == s[p + 1];
      cache[base + p] := cache[base + p + 1];
      p := p + 1;
    }
    if p < setSize - 1 {
      assert cache[base + p + 1] == c[base + p + 1];
      assert c[base + p + 1] == s[p + 1];
    }
    PromotedRun(s, i, p);
  }

  /** The contents of c after slots a .. b-1 have each taken the value of
      the next slot; slot b still holds its own value. */
  ghost function ShiftDown(c: seq<u32>, a: nat, b: nat): (r: seq<u32>)
    requires a <= b < |c|
    ensures |r| == |c|
  {
    seq(|c|, k requires 0 <= k < |c| => if a <= k < b then c[k + 1] else c[k])
  }

  /** The promotion loop stops where `RunEnd` says: at the last slot of the
      run of occupied slots after slot i. */
  lemma {:induction false} PromotedRun(s: seq<u32>, i: nat, p: nat)
    requires i <= p < |s|
    requires forall k :: i < k <= p ==> s[k] != Empty
    requires p + 1 == |s| || s[p + 1] == Empty
    ensures RunEnd(s, i) == p
    decreases p - i
  {
    if i < p {
      PromotedRun(s, i + 1, p);
    }
  }

  /** After the shift and the store of the tag in slot base + j, the set
      is the promoted one and nothing outside it has changed. */
  lemma PromotedWindow(c: seq<u32>, base: nat, n: nat, i: nat, j: nat, tag: u32)
    requires i <= j < n && base + n <= |c|
    ensures var s := c[base..base + n];
      var r := ShiftDown(c, base + i, base + j)[base + j := tag];
      r[base..base + n] == s[..i] + s[i + 1..j + 1] + [tag] + s[j + 1..] &&
      forall k :: 0 <= k < |c| && !(base <= k < base + n) ==> r[k] == c[k]
  {
    var s := c[base..base + n];
    var r := ShiftDown(c, base + i, base + j)[base + j := tag];
    var o := s[..i] + s[i + 1..j + 1] + [tag] + s[j + 1..];
    assert |o| == n;
    forall k | 0 <= k < n ensures r[base + k] == o[k] {
      if k < i {
        assert o[k] == s[k];
      } else if k < j {
        assert o[k] == s[k + 1];
      } else if j < k {
        assert o[k] == s[k];
      }
    }
    assert r[base..base + n] == o;
  }

  /** The eviction of `cache_access`: drop slot 0, move every other slot down
      by one and store the tag in the last slot. */
  method EvictOldest(cache: array<u32>, base: nat, setSize: nat, tag: u32)
    requires 0 < setSize && base + setSize <= cache.Length
    modifies cache
    ensures cache[base..base + setSize] == old(cache[base + 1..base + setSize]) + [tag]
    ensures forall k :: 0 <= k < cache.Length && !(base <= k < base + setSize) ==>
      cache[k] == old(cache[k])
  {
    ghost var s := cache[base..base + setSize];
    var k := 1;
    while k < setSize
      invariant 1 <= k <= setSize
      invariant forall m :: base <= m < base + k - 1 ==> cache[m] == s[m - base + 1]
      invariant forall m :: 0 <= m < cache.Length && !(base <= m < base + k - 1) ==>
        cache[m] == old(cache[m])
    {
      cache[base + k - 1] := cache[base + k];
      k := k + 1;
    }
    cache[base + setSize - 1] := tag;
    assert forall m :: 0 <= m < setSize ==> cache[base + m] == (s[1..] + [tag])[m];
    assert cache[base..base + setSize] == s[1..] + [tag];
  }
}
