/** The event history as a value: the deque `history` seen as a sequence whose front is the
    oldest entry, and the pure definitions that specify what the monitor does to it
    (drop-oldest append, age trim, the newest-first window scan and the distance tally). */
module Store {
  import opened Base

  type History = seq<LightningEvent>

  /** Timestamps never decrease from front to back, as when the clock only runs forward. */
  ghost predicate Sorted(h: History) {
    forall i, j :: 0 <= i <= j < |h| ==> h[i].ts <= h[j].ts
  }

  /** Timestamps never increase from front to back (newest-first listings). */
  ghost predicate NonIncreasing(h: History) {
    forall i, j :: 0 <= i <= j < |h| ==> h[i].ts >= h[j].ts
  }

  function Min(a: int, b: int): int { if a <= b then a else b }

  function Reversed(s: History): (r: History)
    ensures |r| == |s|
    ensures forall i :: 0 <= i < |s| ==> r[i] == s[|s| - 1 - i]
  {
    if s == [] then [] else Reversed(s[1..]) + [s[0]]
  }

  // ---------------------------------------------------------------------------
  // Append with drop-oldest eviction
  // ---------------------------------------------------------------------------

  /** `if (history.size() >= cap) history.pop_front(); history.push_back(e);` */
  function Appended(h: History, e: LightningEvent, cap: nat): (r: History)
    requires 0 < cap
    // the new record is the newest entry and at most one old entry is dropped
    ensures |r| > 0 && r[|r| - 1] == e
    ensures |h| <= |r| + 1 && |r| <= |h| + 1
  {
    if |h| >= cap then h[1..] + [e] else h + [e]
  }

  /** Drop-oldest append: the new record becomes the newest entry, the old entries keep
      their order and at most the front one is dropped, exactly when the store is full,
      so a store within the cap stays within it. */
  lemma AppendKeepsCap(h: History, e: LightningEvent, cap: nat)
    requires 0 < cap
    ensures var r := Appended(h, e, cap);
      && |r| > 0 && r[|r| - 1] == e
      && |h| <= |r| <= |h| + 1 && r[..|r| - 1] == h[|h| - (|r| - 1)..]
      && (|r| == |h| <==> |h| >= cap)
      && (|h| <= cap ==> |r| == Min(|h| + 1, cap))
  {
    var r := Appended(h, e, cap);
    if |h| >= cap {
      assert r[..|r| - 1] == h[1..];
    } else {
      assert r[..|r| - 1] == h;
    }
  }

  lemma AppendWithinCap(h: History, e: LightningEvent, cap: nat)
    requires 0 < cap && |h| <= cap
    ensures |Appended(h, e, cap)| <= cap
  {
  }

  lemma SortedSnoc(p: History, e: LightningEvent)
    requires Sorted(p)
    requires forall x :: x in p ==> x.ts <= e.ts
    ensures Sorted(p + [e])
  {
    var r := p + [e];
    forall i, j | 0 <= i <= j < |r| ensures r[i].ts <= r[j].ts {
      if j < |p| {
        assert r[i] == p[i] && r[j] == p[j];
      } else if i < |p| {
        assert r[i] == p[i] && p[i] in p;
      }
    }
  }

  /** Appending a record no older than anything stored keeps the store time-ordered. */
  lemma AppendKeepsSorted(h: History, e: LightningEvent, cap: nat)
    requires 0 < cap && Sorted(h)
    requires forall x :: x in h ==> x.ts <= e.ts
    ensures Sorted(Appended(h, e, cap))
    ensures forall x :: x in Appended(h, e, cap) ==> x in h || x == e
  {
    var r := Appended(h, e, cap);
    AppendKeepsCap(h, e, cap);
    var p := h[|h| - (|r| - 1)..];
    assert r == p + [e];
    SuffixSorted(h, |h| - (|r| - 1));
    assert forall x :: x in p ==> x in h;
    SortedSnoc(p, e);
  }

  // ---------------------------------------------------------------------------
  // Trim by age (trimHistoryOlderThan)
  // ---------------------------------------------------------------------------

  /** Pops entries off the front while the front entry is older than `cutoff`. */
  function Trimmed(h: History, cutoff: int): (r: History)
    // the trim only removes
    ensures |r| <= |h|
    // it stops at an entry inside the window, or empties the store
    ensures r != [] ==> r[0].ts >= cutoff
    decreases |h|
  {
    if h != [] && h[0].ts < cutoff then Trimmed(h[1..], cutoff) else h
  }

  /** The trim removes a prefix, every entry it removes is older than the cutoff, and it
      stops at an entry that is not. */
  lemma {:induction false} TrimRemovesStalePrefix(h: History, cutoff: int)
    ensures var r := Trimmed(h, cutoff);
      && |r| <= |h| && r == h[|h| - |r|..]
      && (forall i :: 0 <= i < |h| - |r| ==> h[i].ts < cutoff)
      && (r != [] ==> r[0].ts >= cutoff)
    decreases |h|
  {
    if h != [] && h[0].ts < cutoff {
      TrimRemovesStalePrefix(h[1..], cutoff);
      var r := Trimmed(h, cutoff);
      assert h[1..][|h| - 1 - |r|..] == h[|h| - |r|..];
      forall i | 0 <= i < |h| - |r| ensures h[i].ts < cutoff {
        if i > 0 {
          assert h[i] == h[1..][i - 1];
        }
      }
    }
  }

  /** Reference definition: the entries stamped at or after `cutoff`, in storage order. */
  function Recent(h: History, cutoff: int): (r: History)
    decreases |h|
  {
    if h == [] then []
    else (if h[0].ts >= cutoff then [h[0]] else []) + Recent(h[1..], cutoff)
  }

  lemma {:induction false} RecentAppend(h: History, e: LightningEvent, cutoff: int)
    ensures Recent(h + [e], cutoff) == Recent(h, cutoff) + (if e.ts >= cutoff then [e] else [])
    decreases |h|
  {
    if h == [] {
      assert [] + [e] == [e];
    } else {
      assert (h + [e])[1..] == h[1..] + [e];
      RecentAppend(h[1..], e, cutoff);
    }
  }

  /** On time-ordered history the prefix trim removes exactly the stale entries: it keeps
      every entry with `ts >= cutoff` and no other. */
  lemma {:induction false} TrimSortedIsExact(h: History, cutoff: int)
    requires Sorted(h)
    ensures Trimmed(h, cutoff) == Recent(h, cutoff)
    ensures forall e :: e in Trimmed(h, cutoff) ==> e.ts >= cutoff
    ensures forall i :: 0 <= i < |h| && h[i].ts >= cutoff ==> h[i] in Trimmed(h, cutoff)
    decreases |h|
  {
    TrimRemovesStalePrefix(h, cutoff);
    if h == [] {
    } else if h[0].ts < cutoff {
      TrimSortedIsExact(h[1..], cutoff);
    } else {
      RecentAllOf(h, cutoff);
    }
  }

  lemma {:induction false} RecentAllOf(h: History, cutoff: int)
    requires forall i :: 0 <= i < |h| ==> h[i].ts >= cutoff
    ensures Recent(h, cutoff) == h
    decreases |h|
  {
    if h != [] {
      RecentAllOf(h[1..], cutoff);
    }
  }

  /** Trimming twice with the same cutoff is trimming once. */
  lemma {:induction false} TrimIdempotent(h: History, cutoff: int)
    ensures Trimmed(Trimmed(h, cutoff), cutoff) == Trimmed(h, cutoff)
  {
    TrimRemovesStalePrefix(h, cutoff);
  }

  lemma SuffixSorted(h: History, k: nat)
    requires Sorted(h) && k <= |h|
    ensures Sorted(h[k..])
  {
    var r := h[k..];
    forall i, j | 0 <= i <= j < |r| ensures r[i].ts <= r[j].ts {
      assert r[i] == h[k + i] && r[j] == h[k + j];
    }
  }

  /** A trim of a time-ordered history leaves it time-ordered (it is a suffix). */
  lemma TrimKeepsSorted(h: History, cutoff: int)
    requires Sorted(h)
    ensures Sorted(Trimmed(h, cutoff))
  {
    TrimRemovesStalePrefix(h, cutoff);
    SuffixSorted(h, |h| - |Trimmed(h, cutoff)|);
  }

  // ---------------------------------------------------------------------------
  // Newest-first window scan (handleEvents)
  // ---------------------------------------------------------------------------

  /** Walks the history from the back and stops at the first entry older than `cutoff`. */
  function Window(h: History, cutoff: int): (r: History)
    ensures |r| <= |h|
    // reverse storage order: newest first
    ensures forall i :: 0 <= i < |r| ==> r[i] == h[|h| - 1 - i]
    // everything listed is inside the window
    ensures forall i :: 0 <= i < |r| ==> r[i].ts >= cutoff
    // the scan ends at the end of the store or at an entry older than the cutoff
    ensures |r| < |h| ==> h[|h| - 1 - |r|].ts < cutoff
    decreases |h|
  {
    if h == [] || h[|h| - 1].ts < cutoff then []
    else [h[|h| - 1]] + Window(h[..|h| - 1], cutoff)
  }

  /** One step of the scan over the first `i` entries: a fresh last entry is listed and
      the scan goes on with the rest, an older one ends the listing. */
  lemma WindowPrefixStep(h: History, i: nat, cutoff: int)
    requires 0 < i <= |h|
    ensures h[i - 1].ts >= cutoff ==> Window(h[..i], cutoff) == [h[i - 1]] + Window(h[..i - 1], cutoff)
    ensures h[i - 1].ts < cutoff ==> Window(h[..i], cutoff) == []
  {
    assert h[..i][..i - 1] == h[..i - 1];
  }

  /** On time-ordered history every entry from the trim point on is inside the window. */
  lemma SortedTailFresh(h: History, cutoff: int)
    requires Sorted(h)
    ensures forall j :: 0 <= j < |h| && j >= |h| - |Trimmed(h, cutoff)| ==> h[j].ts >= cutoff
  {
    var t := Trimmed(h, cutoff);
    TrimRemovesStalePrefix(h, cutoff);
    var k := |h| - |t|;
    forall j | k <= j < |h| ensures h[j].ts >= cutoff {
      assert h[k] == t[0];
    }
  }

  /** On time-ordered history the scan stops exactly where the trim does. */
  lemma WindowLengthOfSorted(h: History, cutoff: int)
    requires Sorted(h)
    ensures |Window(h, cutoff)| == |Trimmed(h, cutoff)|
  {
    var w := Window(h, cutoff);
    var t := Trimmed(h, cutoff);
    var k := |h| - |t|;
    TrimRemovesStalePrefix(h, cutoff);
    SortedTailFresh(h, cutoff);
    if |w| > 0 {
      // the oldest listed entry is in the window, so it lies at or after the trim point
      var i := |w| - 1;
      assert w[i] == h[|h| - 1 - i] && w[i].ts >= cutoff;
    }
    if |w| < |h| {
      // the entry the scan stopped at is stale, so it lies before the trim point
      var j := |h| - 1 - |w|;
      assert h[j].ts < cutoff;
    }
  }

  /** On time-ordered history the scan lists exactly the in-window suffix, reversed,
      and the listing is newest-first by timestamp. */
  lemma WindowOfSorted(h: History, cutoff: int)
    requires Sorted(h)
    ensures Window(h, cutoff) == Reversed(Trimmed(h, cutoff))
    ensures Window(h, cutoff) == Reversed(Recent(h, cutoff))
    ensures NonIncreasing(Window(h, cutoff))
  {
    var w := Window(h, cutoff);
    var t := Trimmed(h, cutoff);
    WindowLengthOfSorted(h, cutoff);
    TrimSortedIsExact(h, cutoff);
    TrimRemovesStalePrefix(h, cutoff);
    var rt := Reversed(t);
    assert w == rt;
    forall i, j | 0 <= i <= j < |w| ensures w[i].ts >= w[j].ts {
      assert w[i] == h[|h| - 1 - i] && w[j] == h[|h| - 1 - j];
    }
  }

  // ---------------------------------------------------------------------------
  // Distance tally (handleStats)
  // ---------------------------------------------------------------------------

  datatype Bucket = Near | Mid | Far | OutOfRange

  /** Statistics bucket of a distance; independent of the LED table. */
  function BucketOf(km: uint8): (b: Bucket)
    ensures b == OutOfRange <==> km == OUT_OF_RANGE_KM
    ensures b == Near <==> km <= 5
    ensures b == Mid <==> 6 <= km <= 15
    ensures b == Far <==> 15 < km && km != OUT_OF_RANGE_KM
  {
    if km == OUT_OF_RANGE_KM then OutOfRange
    else if km <= 5 then Near
    else if km <= 15 then Mid
    else Far
  }

  /** The five counters of `handleStats`. */
  datatype Stats = Stats(count: nat, near: nat, mid: nat, far: nat, oor: nat)
  {
    /** One iteration of the counting loop: stale entries are skipped (`continue`). */
    function Counted(e: LightningEvent, cutoff: int): (r: Stats)
      // the total advances exactly for an entry inside the window
      ensures r.count == count + (if e.ts < cutoff then 0 else 1)
      // and with it exactly the bucket of the entry's distance; the others stay
      ensures r.near == near + (if e.ts >= cutoff && BucketOf(e.distance) == Near then 1 else 0)
      ensures r.mid == mid + (if e.ts >= cutoff && BucketOf(e.distance) == Mid then 1 else 0)
      ensures r.far == far + (if e.ts >= cutoff && BucketOf(e.distance) == Far then 1 else 0)
      ensures r.oor == oor + (if e.ts >= cutoff && BucketOf(e.distance) == OutOfRange then 1 else 0)
    {
      if e.ts < cutoff then this
      else
        match BucketOf(e.distance)
        case OutOfRange => this.(count := count + 1, oor := oor + 1)
        case Near => this.(count := count + 1, near := near + 1)
        case Mid => this.(count := count + 1, mid := mid + 1)
        case Far => this.(count := count + 1, far := far + 1)
    }
  }

  const NoStats := Stats(0, 0, 0, 0, 0)

  /** The counters after scanning all of `h` front to back. */
  function Tally(h: History, cutoff: int): (r: Stats)
    // never more than one count per stored entry
    ensures r.count <= |h|
    decreases |h|
  {
    if h == [] then NoStats else Tally(h[..|h| - 1], cutoff).Counted(h[|h| - 1], cutoff)
  }

  /** Reference definition: how many entries of `s` fall in bucket `b`. */
  function CountBucket(s: History, b: Bucket): nat
    decreases |s|
  {
    if s == [] then 0
    else (if BucketOf(s[0].distance) == b then 1 else 0) + CountBucket(s[1..], b)
  }

  lemma {:induction false} CountBucketAppend(s: History, e: LightningEvent, b: Bucket)
    ensures CountBucket(s + [e], b) == CountBucket(s, b) + (if BucketOf(e.distance) == b then 1 else 0)
    decreases |s|
  {
    if s == [] {
      assert [] + [e] == [e];
    } else {
      assert (s + [e])[1..] == s[1..] + [e];
      CountBucketAppend(s[1..], e, b);
    }
  }

  /** The loop's counters are the sizes of the in-window entries and of each of its buckets:
      stale entries anywhere in the store are skipped, not a stopping point. */
  lemma {:induction false} TallyCountsRecent(h: History, cutoff: int)
    ensures Tally(h, cutoff) == Stats(
      |Recent(h, cutoff)|,
      CountBucket(Recent(h, cutoff), Near),
      CountBucket(Recent(h, cutoff), Mid),
      CountBucket(Recent(h, cutoff), Far),
      CountBucket(Recent(h, cutoff), OutOfRange))
    decreases |h|
  {
    if h != [] {
      var init, e := h[..|h| - 1], h[|h| - 1];
      assert h == init + [e];
      TallyCountsRecent(init, cutoff);
      RecentAppend(init, e, cutoff);
      if e.ts >= cutoff {
        CountBucketAppend(Recent(init, cutoff), e, Near);
        CountBucketAppend(Recent(init, cutoff), e, Mid);
        CountBucketAppend(Recent(init, cutoff), e, Far);
        CountBucketAppend(Recent(init, cutoff), e, OutOfRange);
      } else {
        assert Recent(init, cutoff) + [] == Recent(init, cutoff);
      }
    }
  }

  /** The four buckets partition the counted entries, and no more entries are counted
      than are stored (so the `uint32_t` counters cannot wrap). */
  lemma {:induction false} TallyBucketsSum(h: History, cutoff: int)
    ensures var s := Tally(h, cutoff);
      s.count == s.near + s.mid + s.far + s.oor && s.count <= |h|
    decreases |h|
  {
    if h != [] {
      TallyBucketsSum(h[..|h| - 1], cutoff);
    }
  }

  /** On time-ordered history the stats count the same entries the events scan lists. */
  lemma TallyMatchesWindow(h: History, cutoff: int)
    requires Sorted(h)
    ensures Tally(h, cutoff).count == |Window(h, cutoff)|
  {
    TallyCountsRecent(h, cutoff);
    WindowOfSorted(h, cutoff);
  }
}
