/**
 * The navigation cursor of the switch operator. The history is shown newest
 * first, so cursor 0 is the most recent view and `count - 1` the oldest.
 */
module Navigation {

  /** NEXT moves to a more recent view, PREVIOUS to an older one, FIRST and LAST jump to the ends. */
  datatype Mode = Next | Previous | First | Last

  /** The cursor after one switch on a non-empty history of `count` views: clamped, never wrapped. */
  function Stepped(mode: Mode, idx: int, count: int): (r: int)
    requires 0 <= idx < count
    ensures 0 <= r < count
    ensures mode == Previous ==> idx <= r <= idx + 1 && (r == idx <==> idx == count - 1)
    ensures mode == Next ==> idx - 1 <= r <= idx && (r == idx <==> idx == 0)
    ensures mode == First ==> r == 0
    ensures mode == Last ==> r == count - 1
  {
    match mode
    case Previous => if idx < count - 1 then idx + 1 else idx
    case Next => if idx > 0 then idx - 1 else idx
    case First => 0
    case Last => count - 1
  }

  /** The cursor after `k` switches in the same mode. */
  function Walk(mode: Mode, idx: int, count: int, k: nat): (r: int)
    requires 0 <= idx < count
    ensures 0 <= r < count
    decreases k
  {
    if k == 0 then idx else Walk(mode, Stepped(mode, idx, count), count, k - 1)
  }

  /** Stepping back after stepping to an older view returns to where the cursor was, and vice versa. */
  lemma StepsUndo(idx: int, count: int)
    requires 0 <= idx < count
    ensures idx < count - 1 ==> Stepped(Next, Stepped(Previous, idx, count), count) == idx
    ensures idx > 0 ==> Stepped(Previous, Stepped(Next, idx, count), count) == idx
  {
  }

  /** `k` PREVIOUS switches move `k` places towards the oldest view and then stay there. */
  lemma {:induction false} WalkPrevious(idx: int, count: int, k: nat)
    requires 0 <= idx < count
    ensures Walk(Previous, idx, count, k) == if idx + k < count - 1 then idx + k else count - 1
    decreases k
  {
    if k > 0 {
      WalkPrevious(Stepped(Previous, idx, count), count, k - 1);
    }
  }

  /** `k` NEXT switches move `k` places towards the newest view and then stay there. */
  lemma {:induction false} WalkNext(idx: int, count: int, k: nat)
    requires 0 <= idx < count
    ensures Walk(Next, idx, count, k) == if idx - k > 0 then idx - k else 0
    decreases k
  {
    if k > 0 {
      WalkNext(Stepped(Next, idx, count), count, k - 1);
    }
  }

  /** The history newest first, built by appending the entries in reverse order. */
  method MostRecentFirst<T>(views: seq<T>) returns (recent: seq<T>)
    ensures |recent| == |views|
    ensures forall i :: 0 <= i < |views| ==> recent[i] == views[|views| - 1 - i]
  {
    recent := [];
    var i := |views|;
    while i > 0
      invariant 0 <= i <= |views|
      invariant |recent| == |views| - i
      invariant forall j :: 0 <= j < |recent| ==> recent[j] == views[|views| - 1 - j]
    {
      i := i - 1;
      recent := recent + [views[i]];
    }
  }
}
