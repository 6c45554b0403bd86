/** Model of src/hooks/useGameState.ts: the draw history, the ball on show,
    the spinning and zoom flags, and the two timers that drive a draw.

    The React state cells become the fields of one `Game` object. Each timer
    callback becomes a method that may run only while its timer is pending.
    Timers carry ids, as `setTimeout` handles do, so the model can tell a
    pending auto-dismiss that a handle still names from one that no handle
    names any more. */
module GameState {
  import Random

  datatype Option<T> = None | Some(value: T)

  /** A `setTimeout` handle. */
  type TimerId = nat

  /** ALL_NUMBERS: the balls 1 .. 90 in ascending order. */
  function AllNumbers(): (all: seq<int>)
    ensures |all| == 90 && forall k :: 0 <= k < 90 ==> all[k] == k + 1
  {
    seq(90, k => k + 1)
  }

  predicate Ascending(s: seq<int>)
  {
    forall i, j :: 0 <= i < j < |s| ==> s[i] < s[j]
  }

  predicate NoDuplicates(s: seq<int>)
  {
    forall i, j :: 0 <= i < j < |s| ==> s[i] != s[j]
  }

  /** A draw history of this game: distinct balls, each one of 1 .. 90. */
  predicate IsHistory(drawn: seq<int>)
  {
    NoDuplicates(drawn) && forall x :: x in drawn ==> 1 <= x <= 90
  }

  /** `xs.filter((n) => !drawn.includes(n))`. */
  function Without(xs: seq<int>, drawn: seq<int>): (r: seq<int>)
    ensures forall x :: x in r <==> x in xs && x !in drawn
  {
    if xs == [] then []
    else if xs[0] in drawn then Without(xs[1..], drawn)
    else [xs[0]] + Without(xs[1..], drawn)
  }

  /** The filter keeps the order of what it keeps. */
  lemma {:induction false} WithoutAscending(xs: seq<int>, drawn: seq<int>)
    requires Ascending(xs)
    ensures Ascending(Without(xs, drawn))
  {
    if xs != [] {
      var rest := Without(xs[1..], drawn);
      assert Ascending(xs[1..]) by {
        forall i, j | 0 <= i < j < |xs| - 1 ensures xs[1..][i] < xs[1..][j] {
          assert xs[1..][i] == xs[i + 1] && xs[1..][j] == xs[j + 1];
        }
      }
      WithoutAscending(xs[1..], drawn);
      if xs[0] !in drawn {
        forall k | 0 <= k < |rest| ensures xs[0] < rest[k] {
          assert rest[k] in xs[1..];
        }
      }
    }
  }

  /** With nothing to remove, the filter returns its input. */
  lemma {:induction false} WithoutNothing(xs: seq<int>, drawn: seq<int>)
    requires forall k :: 0 <= k < |xs| ==> xs[k] !in drawn
    ensures Without(xs, drawn) == xs
  {
    if xs != [] {
      assert forall k :: 0 <= k < |xs| - 1 ==> xs[1..][k] == xs[k + 1];
      WithoutNothing(xs[1..], drawn);
      assert xs == [xs[0]] + xs[1..];
    }
  }

  /** `remaining`: the balls not drawn yet, in ascending order. */
  function RemainingOf(drawn: seq<int>): seq<int>
  {
    Without(AllNumbers(), drawn)
  }

  lemma {:induction false} DistinctCardinality(s: seq<int>)
    requires NoDuplicates(s)
    ensures |set x | x in s| == |s|
  {
    if s != [] {
      DistinctCardinality(s[1..]);
      assert (set x | x in s) == {s[0]} + (set x | x in s[1..]);
      assert s[0] !in s[1..];
    }
  }

  lemma AllNumbersRange()
    ensures forall x :: x in AllNumbers() <==> 1 <= x <= 90
    ensures Ascending(AllNumbers())
  {
    forall x | 1 <= x <= 90 ensures x in AllNumbers() {
      assert AllNumbers()[x - 1] == x;
    }
  }

  /** Before the first draw every ball remains, in the order of ALL_NUMBERS. */
  lemma NothingDrawn()
    ensures RemainingOf([]) == AllNumbers()
  {
    WithoutNothing(AllNumbers(), []);
  }

  /** The remaining balls are exactly 1 .. 90 minus the history, ascending,
      and together with the history they number 90. */
  lemma RemainingPartition(drawn: seq<int>)
    requires IsHistory(drawn)
    ensures forall x :: x in RemainingOf(drawn) <==> 1 <= x <= 90 && x !in drawn
    ensures Ascending(RemainingOf(drawn))
    ensures |RemainingOf(drawn)| + |drawn| == 90
  {
    AllNumbersRange();
    WithoutAscending(AllNumbers(), drawn);
    var remaining := RemainingOf(drawn);
    var all := set x | x in AllNumbers();
    var gone := set x | x in drawn;
    var left := set x | x in remaining;
    DistinctCardinality(AllNumbers());
    DistinctCardinality(drawn);
    DistinctCardinality(remaining);
    assert gone <= all;
    assert left == all - gone;
    assert |all - gone| == |all| - |gone|;
  }

  /** Drawing a remaining ball keeps the history valid and removes exactly
      that ball from `remaining`. */
  lemma DrawOne(drawn: seq<int>, picked: int)
    requires IsHistory(drawn)
    requires picked in RemainingOf(drawn)
    ensures IsHistory(drawn + [picked])
    ensures forall x :: x in RemainingOf(drawn + [picked]) <==> x in RemainingOf(drawn) && x != picked
    ensures |RemainingOf(drawn + [picked])| + 1 == |RemainingOf(drawn)|
  {
    var after := drawn + [picked];
    AllNumbersRange();
    assert forall k :: 0 <= k < |drawn| ==> after[k] == drawn[k];
    assert IsHistory(after);
    RemainingPartition(drawn);
    RemainingPartition(after);
  }

  /** The draw engine's state: the hook's state cells, its two timer
      references, and the timers it has pending with the host. */
  class Game {
    var drawnNumbers: seq<int>
    var currentBall: Option<int>
    var isSpinning: bool
    var showZoom: bool
    var spinTimeoutRef: Option<TimerId>
    var zoomTimeoutRef: Option<TimerId>
    /** Scheduled draw completions that have neither run nor been cleared. */
    var pendingDraw: set<TimerId>
    /** Scheduled auto-dismisses that have neither run nor been cleared. */
    var pendingDismiss: set<TimerId>
    /** The next handle `setTimeout` hands out. */
    var nextTimer: TimerId
    /** The `remaining` array the spin callback closed over. */
    var spinSnapshot: seq<int>

    ghost predicate Valid()
      reads this
    {
      IsHistory(drawnNumbers)
      // at most one draw is in flight, it is the one spinTimeoutRef names,
      // and it is in flight exactly while the cage spins
      && (isSpinning <==> pendingDraw != {})
      && (pendingDraw != {} ==> spinTimeoutRef.Some? && pendingDraw == {spinTimeoutRef.value})
      // while spinning, the captured `remaining` is still the current one
      && (isSpinning ==> spinSnapshot == RemainingOf(drawnNumbers) && spinSnapshot != []
                         && currentBall == None && !showZoom)
      // the ball on show is the last one drawn
      && (currentBall.Some? ==> drawnNumbers != [] && currentBall.value == drawnNumbers[|drawnNumbers| - 1])
      && (showZoom ==> currentBall.Some?)
      // every handle was handed out before
      && (spinTimeoutRef.Some? ==> spinTimeoutRef.value < nextTimer)
      && (zoomTimeoutRef.Some? ==> zoomTimeoutRef.value < nextTimer)
      && (forall t :: t in pendingDraw ==> t < nextTimer)
      && (forall t :: t in pendingDismiss ==> t < nextTimer)
      && pendingDraw !! pendingDismiss
    }

    function Remaining(): seq<int>
      reads this
    {
      RemainingOf(drawnNumbers)
    }

    /** remainingCount: the balls still in the cage. */
    function RemainingCount(): (count: nat)
      reads this
      requires Valid()
      ensures count + |drawnNumbers| == 90
    {
      RemainingPartition(drawnNumbers);
      |Remaining()|
    }

    /** isComplete: no ball is left, i.e. all 90 have been drawn. */
    function IsComplete(): (complete: bool)
      reads this
      requires Valid()
      ensures complete <==> |drawnNumbers| == 90
      ensures complete <==> forall x :: 1 <= x <= 90 ==> x in drawnNumbers
    {
      RemainingPartition(drawnNumbers);
      assert |Remaining()| == 0 <== forall x :: 1 <= x <= 90 ==> x in drawnNumbers by {
        if |Remaining()| > 0 {
          var x := Remaining()[0];
          assert x in Remaining();
        }
      }
      |Remaining()| == 0
    }

    /** The initial state of the hook. */
    constructor ()
      ensures Valid()
      ensures drawnNumbers == [] && currentBall == None && !isSpinning && !showZoom
      ensures spinTimeoutRef == None && zoomTimeoutRef == None
      ensures pendingDraw == {} && pendingDismiss == {}
      ensures nextTimer == 1 && spinSnapshot == []
    {
      drawnNumbers := [];
      currentBall := None;
      isSpinning := false;
      showZoom := false;
      spinTimeoutRef := None;
      zoomTimeoutRef := None;
      pendingDraw := {};
      pendingDismiss := {};
      nextTimer := 1;
      spinSnapshot := [];
    }

    /** spin: start the cage and schedule the draw completion. Ignored while
        the cage spins or when no ball is left. An auto-dismiss still pending
        from the previous draw is not cleared. */
    method Spin()
      requires Valid()
      modifies this
      ensures Valid()
      ensures old(isSpinning) || old(Remaining()) == [] ==> unchanged(this)
      ensures old(IsComplete()) ==> unchanged(this)
      ensures !old(isSpinning) && old(Remaining()) != [] ==>
                isSpinning && !showZoom && currentBall == None
                && drawnNumbers == old(drawnNumbers)
                && spinSnapshot == old(Remaining())
                && spinTimeoutRef == Some(old(nextTimer))
                && pendingDraw == {old(nextTimer)}
                && nextTimer == old(nextTimer) + 1
                && zoomTimeoutRef == old(zoomTimeoutRef)
                && pendingDismiss == old(pendingDismiss)
    {
      if isSpinning || |Remaining()| == 0 {
        return;
      }
      isSpinning := true;
      showZoom := false;
      currentBall := None;
      spinSnapshot := Remaining();
      spinTimeoutRef := Some(nextTimer);
      pendingDraw := {nextTimer};
      nextTimer := nextTimer + 1;
    }

    /** The draw completion (the 2200 ms callback): pick a ball from the
        captured `remaining` with the selector, append it to the history,
        show it, and schedule the auto-dismiss. `entropy` holds the bytes the
        selector draws, which must include an accepted one for the callback
        to finish. */
    method CompleteDraw(timer: TimerId, entropy: seq<Random.byte>) returns (picked: int)
      requires Valid()
      requires timer in pendingDraw
      requires Random.Completes(|spinSnapshot|, entropy)
      modifies this
      ensures Valid()
      ensures picked in old(Remaining())
      // the ball is the selector's pick from the bytes: the only candidate, or
      // the candidate the first accepted byte indexes
      ensures |spinSnapshot| == 1 ==> picked == spinSnapshot[0]
      ensures |spinSnapshot| >= 2 ==>
                exists u :: 0 <= u < |entropy| && Random.Accepted(entropy[u], |spinSnapshot|)
                  && (forall j :: 0 <= j < u ==> !Random.Accepted(entropy[j], |spinSnapshot|))
                  && picked == spinSnapshot[entropy[u] % |spinSnapshot|]
      ensures drawnNumbers == old(drawnNumbers) + [picked]
      ensures forall x :: x in Remaining() <==> x in old(Remaining()) && x != picked
      ensures |Remaining()| + 1 == |old(Remaining())|
      ensures currentBall == Some(picked) && !isSpinning && showZoom
      ensures pendingDraw == {}
      ensures zoomTimeoutRef == Some(old(nextTimer))
      ensures pendingDismiss == old(pendingDismiss) + {old(nextTimer)}
      ensures nextTimer == old(nextTimer) + 1
      ensures spinTimeoutRef == old(spinTimeoutRef) && spinSnapshot == old(spinSnapshot)
    {
      var result, used := Random.SecureRandom(spinSnapshot, entropy);
      picked := result.value;
      if |spinSnapshot| >= 2 {
        ghost var u := used - 1;
        assert 0 <= u < |entropy| && Random.Accepted(entropy[u], |spinSnapshot|);
      }
      DrawOne(drawnNumbers, picked);
      currentBall := Some(picked);
      drawnNumbers := drawnNumbers + [picked];
      isSpinning := false;
      showZoom := true;
      pendingDraw := {};
      zoomTimeoutRef := Some(nextTimer);
      pendingDismiss := pendingDismiss + {nextTimer};
      nextTimer := nextTimer + 1;
    }

    /** The auto-dismiss (the 3000 ms callback): hide the zoom. */
    method AutoDismiss(timer: TimerId)
      requires Valid()
      requires timer in pendingDismiss
      modifies this
      ensures Valid()
      ensures !showZoom
      ensures pendingDismiss == old(pendingDismiss) - {timer}
      ensures drawnNumbers == old(drawnNumbers) && currentBall == old(currentBall)
      ensures isSpinning == old(isSpinning) && pendingDraw == old(pendingDraw)
      ensures spinTimeoutRef == old(spinTimeoutRef) && zoomTimeoutRef == old(zoomTimeoutRef)
      ensures nextTimer == old(nextTimer) && spinSnapshot == old(spinSnapshot)
    {
      showZoom := false;
      pendingDismiss := pendingDismiss - {timer};
    }

    /** dismissZoom: hide the zoom and clear the timer zoomTimeoutRef names;
        the handle itself is kept. */
    method DismissZoom()
      requires Valid()
      modifies this
      ensures Valid()
      ensures !showZoom
      ensures pendingDismiss == if old(zoomTimeoutRef).Some?
                                then old(pendingDismiss) - {old(zoomTimeoutRef).value}
                                else old(pendingDismiss)
      ensures zoomTimeoutRef == old(zoomTimeoutRef)
      ensures zoomTimeoutRef.Some? ==> zoomTimeoutRef.value !in pendingDismiss
      ensures drawnNumbers == old(drawnNumbers) && currentBall == old(currentBall)
      ensures isSpinning == old(isSpinning) && pendingDraw == old(pendingDraw)
      ensures spinTimeoutRef == old(spinTimeoutRef)
      ensures nextTimer == old(nextTimer) && spinSnapshot == old(spinSnapshot)
    {
      showZoom := false;
      if zoomTimeoutRef.Some? {
        pendingDismiss := pendingDismiss - {zoomTimeoutRef.value};
      }
    }

    /** reset: clear the timers both handles name and start a fresh game.
        The handles themselves are kept. */
    method Reset()
      requires Valid()
      modifies this
      ensures Valid()
      ensures drawnNumbers == [] && currentBall == None && !isSpinning && !showZoom
      ensures pendingDraw == {}
      ensures pendingDismiss == if old(zoomTimeoutRef).Some?
                                then old(pendingDismiss) - {old(zoomTimeoutRef).value}
                                else old(pendingDismiss)
      ensures spinTimeoutRef == old(spinTimeoutRef) && zoomTimeoutRef == old(zoomTimeoutRef)
      ensures spinTimeoutRef.Some? ==> spinTimeoutRef.value !in pendingDraw
      ensures zoomTimeoutRef.Some? ==> zoomTimeoutRef.value !in pendingDismiss
      ensures nextTimer == old(nextTimer) && spinSnapshot == old(spinSnapshot)
    {
      if spinTimeoutRef.Some? {
        pendingDraw := pendingDraw - {spinTimeoutRef.value};
      }
      if zoomTimeoutRef.Some? {
        pendingDismiss := pendingDismiss - {zoomTimeoutRef.value};
      }
      drawnNumbers := [];
      currentBall := None;
      isSpinning := false;
      showZoom := false;
    }
  }

  /** Two draws in a row, the second spin started while the first reveal's
      auto-dismiss was still pending. spin does not clear that timer and the
      second draw completion overwrites zoomTimeoutRef, so the old timer stays
      pending with no handle naming it; when it runs it hides the second
      ball's reveal, leaving the ball itself in place. */
  method StaleAutoDismiss() returns (shownBefore: bool, hiddenAfter: bool, named: bool)
    ensures shownBefore && hiddenAfter && !named
  {
    var g := new Game();
    var entropy: seq<Random.byte> := [0];
    RemainingPartition([]);
    g.Spin();
    Random.AcceptedRange(|g.spinSnapshot|);
    assert Random.Accepted(entropy[0], |g.spinSnapshot|);
    var first := g.CompleteDraw(g.spinTimeoutRef.value, entropy);
    var staleTimer := g.zoomTimeoutRef.value;
    RemainingPartition(g.drawnNumbers);
    g.Spin();
    Random.AcceptedRange(|g.spinSnapshot|);
    assert Random.Accepted(entropy[0], |g.spinSnapshot|);
    var second := g.CompleteDraw(g.spinTimeoutRef.value, entropy);
    shownBefore := g.showZoom && g.currentBall == Some(second);
    named := g.zoomTimeoutRef == Some(staleTimer) || g.spinTimeoutRef == Some(staleTimer);
    g.AutoDismiss(staleTimer);
    hiddenAfter := !g.showZoom && g.currentBall == Some(second);
  }
}
