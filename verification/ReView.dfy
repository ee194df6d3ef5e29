/**
 * The add-on's state and its operations: the sampling tick, the toggle, the
 * switch between recorded views, clearing the history, and the two settings.
 */
module ReView {
  import opened Wrappers
  import opened ViewHistory
  import opened Navigation

  // Defaults and bounds of the add-on's settings.
  const DefaultUpdateRate := 10
  const MinUpdateRate := 1
  const MaxUpdateRate := 60
  const DefaultSaveCount := 10
  const MinSaveCount := 1
  const MaxSaveCount := 20

  /** What a switch reports: the view it restores and the position it names, or that there is none. */
  datatype SwitchReport<S> = Restored(view: S, position: int) | NoSavedViews

  /** A setting written through its slider is held within its bounds. */
  function Clamp(n: int, lo: int, hi: int): (r: int)
    requires lo <= hi
    ensures lo <= r <= hi
    ensures lo <= n <= hi ==> r == n
    ensures n < lo ==> r == lo
    ensures hi < n ==> r == hi
  {
    if n < lo then lo else if hi < n then hi else n
  }

  /** The add-on's scene state: history, last-view slot, cursor, flag and settings. */
  class Tracker<S(==)> {
    var views: seq<Entry<S>>
    var last: Option<S>
    var isActive: bool
    var updateRate: int
    var saveCount: int
    var viewIdx: int

    /** The settings are in range and the cursor points at a view, or is 0 when there is none. */
    ghost predicate Valid()
      reads this
    {
      && MinUpdateRate <= updateRate <= MaxUpdateRate
      && MinSaveCount <= saveCount <= MaxSaveCount
      && 0 <= viewIdx
      && (viewIdx < |views| || viewIdx == 0)
    }

    constructor ()
      ensures Valid()
      ensures views == [] && last == None && !isActive && viewIdx == 0
      ensures updateRate == DefaultUpdateRate && saveCount == DefaultSaveCount
    {
      views := [];
      last := None;
      isActive := false;
      updateRate := DefaultUpdateRate;
      saveCount := DefaultSaveCount;
      viewIdx := 0;
    }

    /**
     * One sampling tick seeing `current`. Returns `None` to stop the timer, or
     * the delay until the next tick.
     */
    method Tick(current: S) returns (delay: Option<int>)
      requires Valid()
      modifies this`views, this`last
      ensures Valid()
      ensures views == TickViews(old(views), old(last), current, saveCount)
      ensures last == Some(current)
      ensures delay == if isActive then Some(updateRate) else None
    {
      var lastData := last;
      ghost var expected := TickViews(views, last, current, saveCount);
      if last.None? {
        // first tick: fill the slot; there is nothing to compare with
        last := Some(current);
      }
      if lastData == Some(current) {
        // the view stayed put for a whole interval: look for its entry
        var found, k := FindMatch(views, lastData.value);
        if found {
          assert expected == views[k := Entry(views[k].sample, views[k].count + 1)];
          views := views[k := views[k].(count := views[k].count + 1)];
        } else {
          assert expected == Commit(views, current, saveCount);
          views := views + [Entry(current, 0)];
          if |views| > saveCount {
            views := views[1..];
          }
        }
      } else {
        assert expected == views;
      }
      assert views == expected;
      last := Some(current);
      if !isActive {
        return None;
      }
      return Some(updateRate);
    }

    /** Flips the flag; on activation returns the first interval of the timer it starts. */
    method Toggle() returns (timer: Option<int>)
      requires Valid()
      modifies this`isActive
      ensures Valid()
      ensures isActive == !old(isActive)
      ensures timer == if isActive then Some(updateRate) else None
    {
      isActive := !isActive;
      if isActive {
        timer := Some(updateRate);
      } else {
        timer := None;
      }
    }

    /**
     * Moves the cursor and restores the view it then points at, counting from
     * the newest; on an empty history reports that and changes nothing. The
     * position reported is the cursor's value before the move, plus one.
     */
    method Switch(mode: Mode) returns (report: SwitchReport<S>)
      requires Valid()
      modifies this`viewIdx
      ensures Valid()
      ensures |views| == 0 ==> report == NoSavedViews && viewIdx == old(viewIdx)
      ensures |views| > 0 ==> viewIdx == Stepped(mode, old(viewIdx), |views|)
      ensures |views| > 0 ==> report == Restored(views[|views| - 1 - viewIdx].sample, old(viewIdx) + 1)
    {
      var idx := viewIdx;
      var viewCount := |views|;
      if viewCount > 0 {
        if mode == Previous {
          if idx < viewCount - 1 {
            viewIdx := idx + 1;
          }
        } else if mode == Next {
          if idx > 0 {
            viewIdx := idx - 1;
          }
        } else if mode == First {
          viewIdx := 0;
        } else {
          viewIdx := viewCount - 1;
        }
        var recent := MostRecentFirst(views);
        report := Restored(recent[viewIdx].sample, idx + 1);
      } else {
        report := NoSavedViews;
      }
    }

    /** Empties the history and puts the cursor back at 0; the last-view slot is kept. */
    method Clear()
      requires Valid()
      modifies this`views, this`viewIdx
      ensures Valid()
      ensures views == [] && viewIdx == 0
    {
      views := [];
      viewIdx := 0;
    }

    /** The update-rate slider: the delay between ticks, held within 1 to 60. */
    method SetUpdateRate(n: int)
      requires Valid()
      modifies this`updateRate
      ensures Valid()
      ensures updateRate == Clamp(n, MinUpdateRate, MaxUpdateRate)
    {
      updateRate := Clamp(n, MinUpdateRate, MaxUpdateRate);
    }

    /** The saved-views slider: the history bound, held within 1 to 20. The history is not trimmed. */
    method SetSaveCount(n: int)
      requires Valid()
      modifies this`saveCount
      ensures Valid()
      ensures saveCount == Clamp(n, MinSaveCount, MaxSaveCount)
    {
      saveCount := Clamp(n, MinSaveCount, MaxSaveCount);
    }
  }
}
