/**
 * The recent-view history as values: what one sampling tick of `store_view`
 * does to the list of recorded views, and what a run of ticks does.
 *
 * A view sample is any type with equality; the history is a list of entries,
 * oldest first. The last-view slot is `None` before the first tick.
 */
module ViewHistory {
  import opened Wrappers

  /** A recorded view and its `count`, which starts at 0 when the view is recorded. */
  datatype Entry<S> = Entry(sample: S, count: int)

  /** The tracker's state between ticks: the history and the last-view slot. */
  datatype Tracking<S> = Tracking(views: seq<Entry<S>>, last: Option<S>)

  /** Position of the first entry that records `s`, if there is one. */
  function FirstMatch<S(==)>(views: seq<Entry<S>>, s: S): (r: Option<nat>)
    ensures r.Some? ==> r.value < |views| && views[r.value].sample == s
    ensures r.Some? ==> forall j :: 0 <= j < r.value ==> views[j].sample != s
    ensures r.None? <==> forall j :: 0 <= j < |views| ==> views[j].sample != s
  {
    if |views| == 0 then None
    else if views[0].sample == s then Some(0)
    else
      match FirstMatch(views[1..], s)
      case Some(k) => Some(k + 1)
      case None => None
  }

  /** The search loop of a tick: whether some entry records `s`, and the first such position. */
  method FindMatch<S(==)>(views: seq<Entry<S>>, s: S) returns (found: bool, k: nat)
    ensures found <==> FirstMatch(views, s).Some?
    ensures found ==> k == FirstMatch(views, s).value
  {
    found, k := false, 0;
    var i := 0;
    while i < |views|
      invariant 0 <= i <= |views|
      invariant forall j :: 0 <= j < i ==> views[j].sample != s
    {
      if views[i].sample == s {
        found, k := true, i;
        return;
      }
      i := i + 1;
    }
  }

  /** Records `s` at the end; when that makes the history longer than `saveCount`, drops the oldest entry. */
  function Commit<S>(views: seq<Entry<S>>, s: S, saveCount: int): (r: seq<Entry<S>>)
    requires 1 <= saveCount
    // one entry longer, unless the history already held `saveCount` or more
    ensures |r| == if |views| < saveCount then |views| + 1 else |views|
    // the new entry is the newest, with count 0 ...
    ensures r[|r| - 1] == Entry(s, 0)
    // ... behind the old entries, less the oldest when the history was full
    ensures r[..|r| - 1] == if |views| < saveCount then views else views[1..]
  {
    var grown := views + [Entry(s, 0)];
    if |grown| > saveCount then
      assert grown[1..][..|views| - 1] == views[1..];
      grown[1..]
    else
      assert grown[..|views|] == views;
      grown
  }

  /** The history after one tick that sees `current`, given the last-view slot before the tick. */
  function TickViews<S(==)>(views: seq<Entry<S>>, last: Option<S>, current: S, saveCount: int): (r: seq<Entry<S>>)
    requires 1 <= saveCount
    // first tick, or the view changed since the previous tick: nothing is recorded
    ensures last != Some(current) ==> r == views
    // the history never shrinks and grows by at most one entry ...
    ensures |views| <= |r| <= |views| + 1
    // ... and a history within the bound stays within it
    ensures |r| <= if |views| < saveCount then saveCount else |views|
  {
    if last == Some(current) then
      match FirstMatch(views, current)
      case Some(k) => views[k := Entry(views[k].sample, views[k].count + 1)]
      case None => Commit(views, current, saveCount)
    else
      views
  }

  /** A dwell on a recorded view: only its first entry's count goes up, by one; length and order are kept. */
  lemma TickOnRecorded<S>(views: seq<Entry<S>>, current: S, saveCount: int, k: nat)
    requires 1 <= saveCount
    requires FirstMatch(views, current) == Some(k)
    ensures var r := TickViews(views, Some(current), current, saveCount);
      && |r| == |views|
      && r[k] == Entry(current, views[k].count + 1)
      && forall j :: 0 <= j < |views| && j != k ==> r[j] == views[j]
  {
  }

  /**
   * A dwell on a view no entry records: it is recorded last with count 0, after
   * the old entries minus the oldest one exactly when the history was already full.
   */
  lemma TickOnNew<S>(views: seq<Entry<S>>, current: S, saveCount: int)
    requires 1 <= saveCount
    requires FirstMatch(views, current).None?
    ensures TickViews(views, Some(current), current, saveCount)
         == (if |views| >= saveCount then views[1..] else views) + [Entry(current, 0)]
  {
    assert TickViews(views, Some(current), current, saveCount) == Commit(views, current, saveCount);
    if |views| >= saveCount {
      assert (views + [Entry(current, 0)])[1..] == views[1..] + [Entry(current, 0)];
    }
  }

  /** One tick: the history as `TickViews` says, and the slot then holds the current sample. */
  function Step<S(==)>(st: Tracking<S>, current: S, saveCount: int): Tracking<S>
    requires 1 <= saveCount
  {
    Tracking(TickViews(st.views, st.last, current, saveCount), Some(current))
  }

  /** The ticks for `samples`, in order, with a fixed `saveCount`. */
  function Run<S(==)>(st: Tracking<S>, samples: seq<S>, saveCount: int): Tracking<S>
    requires 1 <= saveCount
    decreases |samples|
  {
    if |samples| == 0 then st
    else Run(Step(st, samples[0], saveCount), samples[1..], saveCount)
  }

  /** `n` ticks that all see `s`. */
  function Repeat<S>(s: S, n: nat): seq<S>
  {
    if n == 0 then [] else [s] + Repeat(s, n - 1)
  }

  /** After any run of ticks the slot holds the sample of the last tick. */
  lemma {:induction false} RunLastSample<S>(st: Tracking<S>, samples: seq<S>, saveCount: int)
    requires 1 <= saveCount
    requires |samples| > 0
    ensures Run(st, samples, saveCount).last == Some(samples[|samples| - 1])
    decreases |samples|
  {
    if |samples| > 1 {
      RunLastSample(Step(st, samples[0], saveCount), samples[1..], saveCount);
    }
  }

  /** A history no longer than `saveCount` stays so over any run of ticks. */
  lemma {:induction false} RunKeepsBound<S>(st: Tracking<S>, samples: seq<S>, saveCount: int)
    requires 1 <= saveCount
    requires |st.views| <= saveCount
    ensures |Run(st, samples, saveCount).views| <= saveCount
    decreases |samples|
  {
    if |samples| > 0 {
      RunKeepsBound(Step(st, samples[0], saveCount), samples[1..], saveCount);
    }
  }

  /** Position by position, `newer` records the same views as `older`, with counts never lower. */
  ghost predicate Dominates<S>(older: seq<Entry<S>>, newer: seq<Entry<S>>)
  {
    && |older| == |newer|
    && forall i :: 0 <= i < |older| ==>
         newer[i].sample == older[i].sample && newer[i].count >= older[i].count
  }

  /**
   * `after` is `before` aged: the first `shift` entries (the evicted ones) are
   * gone, and the survivors lead `after` in the same order with counts never lower.
   */
  ghost predicate Ages<S>(before: seq<Entry<S>>, after: seq<Entry<S>>, shift: nat)
  {
    || shift >= |before|
    || (|before| - shift <= |after| && Dominates(before[shift..], after[..|before| - shift]))
  }

  /** A history that does not change is aged by nothing. */
  lemma AgesSelf<S>(views: seq<Entry<S>>)
    ensures Ages(views, views, 0)
  {
    assert views[0..] == views && views[..|views|] == views;
  }

  /** Raising one entry's count ages the history without shifting it. */
  lemma BumpAges<S>(views: seq<Entry<S>>, k: nat)
    requires k < |views|
    ensures Ages(views, views[k := Entry(views[k].sample, views[k].count + 1)], 0)
  {
    var r := views[k := Entry(views[k].sample, views[k].count + 1)];
    assert views[0..] == views && r[..|views|] == r;
  }

  /** A dwell on a recorded view ages the history without shifting it. */
  lemma TickOnRecordedAges<S>(views: seq<Entry<S>>, current: S, saveCount: int)
    requires 1 <= saveCount
    requires FirstMatch(views, current).Some?
    ensures Ages(views, TickViews(views, Some(current), current, saveCount), 0)
  {
    BumpAges(views, FirstMatch(views, current).value);
  }

  /** A dwell on a new view ages the history by one place exactly when it evicts. */
  lemma TickOnNewAges<S>(views: seq<Entry<S>>, current: S, saveCount: int)
    requires 1 <= saveCount
    requires FirstMatch(views, current).None?
    ensures Ages(views, TickViews(views, Some(current), current, saveCount), if |views| >= saveCount then 1 else 0)
  {
    assert TickViews(views, Some(current), current, saveCount) == Commit(views, current, saveCount);
    var grown := views + [Entry(current, 0)];
    if |views| >= saveCount {
      if |views| > 1 {
        assert grown[1..][..|views| - 1] == views[1..];
      }
    } else {
      assert grown[..|views|] == views && views[0..] == views;
    }
  }

  /** One tick ages the history by at most one eviction, from the front. */
  lemma TickAges<S>(views: seq<Entry<S>>, last: Option<S>, current: S, saveCount: int)
    requires 1 <= saveCount
    ensures Ages(views, TickViews(views, last, current, saveCount),
                 if last == Some(current) && FirstMatch(views, current).None? && |views| >= saveCount then 1 else 0)
  {
    if last != Some(current) {
      assert TickViews(views, last, current, saveCount) == views;
      AgesSelf(views);
    } else if FirstMatch(views, current).Some? {
      TickOnRecordedAges(views, current, saveCount);
    } else {
      TickOnNewAges(views, current, saveCount);
    }
  }

  /** Aging composes: two agings make one whose shift is the sum. */
  lemma AgesCompose<S>(a: seq<Entry<S>>, b: seq<Entry<S>>, c: seq<Entry<S>>, s1: nat, s2: nat)
    requires Ages(a, b, s1) && Ages(b, c, s2)
    ensures Ages(a, c, s1 + s2)
  {
    if s1 + s2 < |a| {
      var n := |a| - (s1 + s2);
      var x, y := a[s1 + s2..], c[..n];
      forall i | 0 <= i < n
        ensures y[i].sample == x[i].sample && y[i].count >= x[i].count
      {
        assert y[i] == c[..|b| - s2][i];
        assert b[s2..][i] == b[..|a| - s1][i + s2];
        assert a[s1..][i + s2] == x[i];
      }
    }
  }

  /**
   * Over any run of ticks, entries only move towards the front (at most one place
   * per tick), keep their order, and their counts never go down. The statement has
   * content only for fewer ticks than entries: a shift that reaches the length of
   * the history leaves no survivor to speak of.
   */
  lemma {:induction false} RunAges<S>(st: Tracking<S>, samples: seq<S>, saveCount: int)
    requires 1 <= saveCount
    ensures exists shift: nat :: shift <= |samples| && Ages(st.views, Run(st, samples, saveCount).views, shift)
    decreases |samples|
  {
    if |samples| == 0 {
      assert Run(st, samples, saveCount) == st;
      assert Ages(st.views, st.views, 0);
    } else {
      var st1 := Step(st, samples[0], saveCount);
      TickAges(st.views, st.last, samples[0], saveCount);
      var s1: nat := if st.last == Some(samples[0]) && FirstMatch(st.views, samples[0]).None? && |st.views| >= saveCount then 1 else 0;
      RunAges(st1, samples[1..], saveCount);
      var s2: nat :| s2 <= |samples| - 1 && Ages(st1.views, Run(st1, samples[1..], saveCount).views, s2);
      AgesCompose(st.views, st1.views, Run(st1, samples[1..], saveCount).views, s1, s2);
      assert Run(st, samples, saveCount) == Run(st1, samples[1..], saveCount);
      assert s1 + s2 <= |samples| && Ages(st.views, Run(st, samples, saveCount).views, s1 + s2);
    }
  }

  /** A run of `n > 0` equal ticks is one tick followed by `n - 1` more. */
  lemma RunRepeat<S>(st: Tracking<S>, a: S, n: nat, saveCount: int)
    requires 1 <= saveCount
    requires 0 < n
    ensures Run(st, Repeat(a, n), saveCount) == Run(Step(st, a, saveCount), Repeat(a, n - 1), saveCount)
  {
    assert Repeat(a, n) == [a] + Repeat(a, n - 1);
    assert Repeat(a, n)[1..] == Repeat(a, n - 1);
  }

  /** A dwell on the view recorded last, and nowhere earlier, raises that entry's count. */
  lemma BumpNewest<S>(p: seq<Entry<S>>, a: S, c: int, saveCount: int)
    requires 1 <= saveCount
    requires forall j :: 0 <= j < |p| ==> p[j].sample != a
    ensures TickViews(p + [Entry(a, c)], Some(a), a, saveCount) == p + [Entry(a, c + 1)]
  {
    var views := p + [Entry(a, c)];
    assert views[|p|].sample == a;
    assert forall j :: 0 <= j < |p| ==> views[j].sample != a;
    assert FirstMatch(views, a) == Some(|p|);
  }

  /** The state after a dwell on `a`: `a` recorded last with count `c`, after entries `p`, and in the slot. */
  function Recorded<S>(p: seq<Entry<S>>, a: S, c: int): Tracking<S>
  {
    Tracking(p + [Entry(a, c)], Some(a))
  }

  /** Further ticks on a view already recorded last raise its count once per tick and change nothing else. */
  lemma {:induction false} DwellCounts<S>(p: seq<Entry<S>>, a: S, c: int, k: nat, saveCount: int)
    requires 1 <= saveCount
    requires forall j :: 0 <= j < |p| ==> p[j].sample != a
    ensures Run(Recorded(p, a, c), Repeat(a, k), saveCount) == Recorded(p, a, c + k)
    decreases k
  {
    if k > 0 {
      RunRepeat(Recorded(p, a, c), a, k, saveCount);
      BumpNewest(p, a, c, saveCount);
      assert Step(Recorded(p, a, c), a, saveCount) == Recorded(p, a, c + 1);
      DwellCounts(p, a, c + 1, k - 1, saveCount);
      assert c + 1 + (k - 1) == c + k;
    } else {
      assert Repeat(a, k) == [];
    }
  }

  /** A dwell on a view no entry records makes it the newest entry, with count 0. */
  lemma DwellRecords<S>(views: seq<Entry<S>>, a: S, saveCount: int)
    requires 1 <= saveCount
    requires forall j :: 0 <= j < |views| ==> views[j].sample != a
    ensures Step(Tracking(views, Some(a)), a, saveCount)
         == Recorded(if |views| >= saveCount then views[1..] else views, a, 0)
  {
    assert FirstMatch(views, a).None?;
    TickOnNew(views, a, saveCount);
  }

  /**
   * `n >= 2` ticks on a view that is neither in the slot nor in the history record
   * it once, after the second tick, as the newest entry with count `n - 2`; the
   * oldest entry is dropped if the history was full.
   */
  lemma DwellRecordsOnce<S>(st: Tracking<S>, a: S, n: nat, saveCount: int)
    requires 1 <= saveCount
    requires 2 <= n
    requires st.last != Some(a)
    requires forall j :: 0 <= j < |st.views| ==> st.views[j].sample != a
    ensures Run(st, Repeat(a, n), saveCount)
         == Recorded(if |st.views| >= saveCount then st.views[1..] else st.views, a, n - 2)
  {
    var kept := if |st.views| >= saveCount then st.views[1..] else st.views;
    // first tick: the view differs from the slot, so only the slot changes
    var st1 := Tracking(st.views, Some(a));
    RunRepeat(st, a, n, saveCount);
    assert Step(st, a, saveCount) == st1;
    // second tick: a dwell on an unrecorded view records it
    RunRepeat(st1, a, n - 1, saveCount);
    DwellRecords(st.views, a, saveCount);
    // later ticks raise its count
    assert forall j :: 0 <= j < |kept| ==> kept[j].sample != a;
    DwellCounts(kept, a, 0, n - 2, saveCount);
  }

  /**
   * With room for two views, dwelling on A, then B, then C for two ticks each
   * leaves B and C, each with count 0: A was evicted.
   */
  lemma EvictionScenario<S>(a: S, b: S, c: S)
    requires a != b && b != c && a != c
    ensures Run(Tracking([], None), Repeat(a, 2) + (Repeat(b, 2) + Repeat(c, 2)), 2).views == [Entry(b, 0), Entry(c, 0)]
  {
    var st0: Tracking<S> := Tracking([], None);
    DwellRecordsOnce(st0, a, 2, 2);
    var st2 := Run(st0, Repeat(a, 2), 2);
    assert st2 == Tracking([Entry(a, 0)], Some(a));
    DwellRecordsOnce(st2, b, 2, 2);
    var st4 := Run(st2, Repeat(b, 2), 2);
    assert st4 == Tracking([Entry(a, 0), Entry(b, 0)], Some(b));
    DwellRecordsOnce(st4, c, 2, 2);
    var st6 := Run(st4, Repeat(c, 2), 2);
    assert st6.views == [Entry(a, 0), Entry(b, 0)][1..] + [Entry(c, 0)];
    RunConcat(st2, Repeat(b, 2), Repeat(c, 2), 2);
    RunConcat(st0, Repeat(a, 2), Repeat(b, 2) + Repeat(c, 2), 2);
  }

  /** Running two batches of ticks one after the other is running them together. */
  lemma {:induction false} RunConcat<S>(st: Tracking<S>, xs: seq<S>, ys: seq<S>, saveCount: int)
    requires 1 <= saveCount
    ensures Run(st, xs + ys, saveCount) == Run(Run(st, xs, saveCount), ys, saveCount)
    decreases |xs|
  {
    if |xs| > 0 {
      assert (xs + ys)[0] == xs[0] && (xs + ys)[1..] == xs[1..] + ys;
      RunConcat(Step(st, xs[0], saveCount), xs[1..], ys, saveCount);
    } else {
      assert xs + ys == ys;
    }
  }
}
