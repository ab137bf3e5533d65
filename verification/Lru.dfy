/**
 The least-recently-used bookkeeping shared by the page cache and the block cache.

 A cache stamps every access with the value of a clock that ticks once per access, hit or miss.
 `history[i]` is the key touched by tick `i + 1`, or `None` when that tick was a miss.
 */
module Lru {
  import opened Flat

  const U64_RANGE: nat := 0x1_0000_0000_0000_0000

  /** The tick of the last access to `k`, or 0 when it was never accessed. */
  ghost function LastUse<K>(history: seq<Option<K>>, k: K): (t: nat)
    ensures t <= |history|
    ensures t > 0 ==> history[t - 1] == Some(k)
    ensures forall j | t <= j < |history| :: history[j] != Some(k)
  {
    if history == [] then 0
    else if history[|history| - 1] == Some(k) then |history|
    else LastUse(history[..|history| - 1], k)
  }

  /** Every stamped key carries the tick of its last access. */
  ghost predicate Stamped<K>(ages: map<K, nat>, history: seq<Option<K>>) {
    forall k | k in ages :: ages[k] > 0 && ages[k] == LastUse(history, k)
  }

  /** Stamps are distinct, so the oldest key is unique. */
  lemma {:induction false} StampsAreDistinct<K>(ages: map<K, nat>, history: seq<Option<K>>, j: K, k: K)
    requires Stamped(ages, history)
    requires j in ages && k in ages && j != k
    ensures ages[j] != ages[k]
  {
    assert history[LastUse(history, j) - 1] == Some(j);
    assert history[LastUse(history, k) - 1] == Some(k);
  }

  lemma TickKeepsOthers<K>(history: seq<Option<K>>, touched: Option<K>, k: K)
    ensures LastUse(history + [touched], k) == if touched == Some(k) then |history| + 1 else LastUse(history, k)
  {
    assert (history + [touched])[..|history|] == history;
  }

  /** The next reading of a 64-bit clock. */
  function Tick(clock: nat): nat {
    (clock + 1) % U64_RANGE
  }

  /** The clock counts the accesses and, until it wraps, every stamp is the tick of the last access. */
  ghost predicate Clocked<K>(ages: map<K, nat>, clock: nat, history: seq<Option<K>>) {
    && clock == |history| % U64_RANGE
    && (|history| < U64_RANGE ==> Stamped(ages, history))
  }

  /** A miss keeps every stamp right. */
  lemma MissKeepsStamps<K>(ages: map<K, nat>, clock: nat, history: seq<Option<K>>)
    requires Clocked(ages, clock, history)
    ensures Clocked(ages, Tick(clock), history + [None])
  {
    forall k | k in ages ensures LastUse(history + [None], k) == LastUse(history, k) {
      TickKeepsOthers(history, None, k);
    }
  }

  /** Stamping the touched key with the new tick keeps every stamp right. */
  lemma TouchKeepsStamps<K>(ages: map<K, nat>, clock: nat, history: seq<Option<K>>, k: K)
    requires Clocked(ages, clock, history)
    ensures Clocked(ages[k := Tick(clock)], Tick(clock), history + [Some(k)])
  {
    forall j | j in ages || j == k
      ensures LastUse(history + [Some(k)], j) == if j == k then |history| + 1 else LastUse(history, j)
    {
      TickKeepsOthers(history, Some(k), j);
    }
  }

  /** Forgetting keys keeps the other stamps right. */
  lemma ForgetKeepsStamps<K>(ages: map<K, nat>, kept: map<K, nat>, clock: nat, history: seq<Option<K>>)
    requires Clocked(ages, clock, history)
    requires forall k | k in kept :: k in ages && kept[k] == ages[k]
    ensures Clocked(kept, clock, history)
  {
  }

  /** Every key that survives was used after every key that was dropped. */
  ghost predicate DroppedLeastRecent<K>(before: set<K>, after: set<K>, history: seq<Option<K>>) {
    && after <= before
    && forall gone, kept | gone in before - after && kept in after :: LastUse(history, gone) < LastUse(history, kept)
  }

  lemma DroppedTwice<K>(a: set<K>, b: set<K>, c: set<K>, history: seq<Option<K>>)
    requires DroppedLeastRecent(a, b, history) && DroppedLeastRecent(b, c, history)
    ensures DroppedLeastRecent(a, c, history)
  {
    forall gone, kept | gone in a - c && kept in c
      ensures LastUse(history, gone) < LastUse(history, kept)
    {
      assert gone in a - b || gone in b - c;
    }
  }

  /** An access to nothing does not change which keys were used last. */
  lemma MissKeepsOrder<K>(before: set<K>, after: set<K>, history: seq<Option<K>>)
    requires DroppedLeastRecent(before, after, history + [None])
    ensures DroppedLeastRecent(before, after, history)
  {
    forall k: K
      ensures LastUse(history + [None], k) == LastUse(history, k)
    {
      TickKeepsOthers(history, None, k);
    }
  }

  /** Dropping the key with the smallest stamp drops the least recently used one. */
  lemma {:induction false} OldestIsLeastRecent<K>(ages: map<K, nat>, history: seq<Option<K>>, oldest: K, k: K)
    requires Stamped(ages, history)
    requires oldest in ages && k in ages && k != oldest && ages[oldest] <= ages[k]
    ensures LastUse(history, oldest) < LastUse(history, k)
  {
    StampsAreDistinct(ages, history, oldest, k);
  }

  /** A linear scan for a key with the smallest stamp. */
  method Oldest<K(==)>(ages: map<K, nat>) returns (oldest: K)
    requires ages != map[]
    ensures oldest in ages && forall k | k in ages :: ages[oldest] <= ages[k]
  {
    oldest :| oldest in ages;
    var rest := ages.Keys;
    while rest != {}
      invariant rest <= ages.Keys
      invariant oldest in ages
      invariant forall k | k in ages && k !in rest :: ages[oldest] <= ages[k]
      decreases |rest|
    {
      var k :| k in rest;
      if ages[k] < ages[oldest] {
        oldest := k;
      }
      rest := rest - {k};
    }
  }
}
