/**
  Properties that tie the resolver, the planner and the gestures together,
  and the worked two-monitor examples.
 */
module Scenarios {
  import opened Geometry
  import opened Placement
  import opened Hotkeys
  import opened Suppression

  /** Every monitor of the layout has an area. */
  predicate AllHaveArea(ms: seq<Monitor>) {
    forall i {:trigger Degenerate(ms[i])} | 0 <= i < |ms| :: !Degenerate(ms[i])
  }

  /**
    In a layout of non-overlapping monitors with area, a pointer parked at the
    centre of monitor `k` (where the previous dispatch left it) cycles to
    monitor `k + 1`, wrapping to 0 after the last one.
   */
  lemma CycleFromCentre(ms: seq<Monitor>, k: nat)
    requires NonOverlapping(ms) && AllHaveArea(ms)
    requires k < |ms|
    ensures CycleIndex(ms, PointerTarget(ms[k])) == Some(if k + 1 == |ms| then 0 else k + 1)
  {
    PointerTargetInside(ms[k]);
    ResolveNonOverlapping(ms, PointerTarget(ms[k]), k);
  }

  /** The pointer after `n` cycle gestures with no other pointer movement in between. */
  function CycleTimes(ms: seq<Monitor>, p: Point, n: nat): Point
    requires |ms| > 0
  {
    if n == 0 then p
    else PointerTarget(ms[CycleIndex(ms, CycleTimes(ms, p, n - 1)).value])
  }

  /** Index `k` advanced `n` times by one, wrapping to 0 at `count`. */
  function Advance(k: nat, n: nat, count: nat): (r: nat)
    requires k < count
    ensures r < count
  {
    if n == 0 then k
    else
      var a := Advance(k, n - 1, count);
      if a + 1 == count then 0 else a + 1
  }

  /** Advancing `n` times by one with wrap-around is adding `n` modulo `count`. */
  lemma {:induction false} AdvanceIsMod(k: nat, n: nat, count: nat)
    requires k < count
    ensures Advance(k, n, count) == (k + n) % count
  {
    if n == 0 {
      ModUnique(k, count, 0, k);
    } else {
      AdvanceIsMod(k, n - 1, count);
      var a := Advance(k, n - 1, count);
      ModSucc(k + (n - 1), count);
      if a + 1 == count {
        ModUnique(a + 1, count, 1, 0);
      } else {
        ModUnique(a + 1, count, 0, a + 1);
      }
    }
  }

  /** From the centre of monitor `k`, each cycle advances the pointer by one monitor. */
  lemma {:induction false} CycleTimesAdvance(ms: seq<Monitor>, k: nat, n: nat)
    requires NonOverlapping(ms) && AllHaveArea(ms)
    requires k < |ms|
    ensures CycleTimes(ms, PointerTarget(ms[k]), n) == PointerTarget(ms[Advance(k, n, |ms|)])
  {
    if n > 0 {
      CycleTimesAdvance(ms, k, n - 1);
      var a := Advance(k, n - 1, |ms|);
      var q := CycleTimes(ms, PointerTarget(ms[k]), n - 1);
      assert q == PointerTarget(ms[a]);
      CycleFromCentre(ms, a);
      assert CycleIndex(ms, q).value == Advance(k, n, |ms|);
    }
  }

  /**
    Starting from the centre of monitor `k`, `n` cycles leave the pointer at
    the centre of monitor `(k + n) mod count`; so `count` cycles bring it back
    to where it started.
   */
  lemma CycleTimesVisitsInOrder(ms: seq<Monitor>, k: nat, n: nat)
    requires NonOverlapping(ms) && AllHaveArea(ms)
    requires k < |ms|
    ensures CycleTimes(ms, PointerTarget(ms[k]), n) == PointerTarget(ms[(k + n) % |ms|])
    ensures CycleTimes(ms, PointerTarget(ms[k]), |ms|) == PointerTarget(ms[k])
  {
    CycleTimesAdvance(ms, k, n);
    AdvanceIsMod(k, n, |ms|);
    CycleTimesAdvance(ms, k, |ms|);
    AdvanceIsMod(k, |ms|, |ms|);
    ModUnique(k + |ms|, |ms|, 1, k);
  }

  lemma MulAtLeast(d: int, n: int)
    requires d >= 1 && n > 0
    ensures d * n >= n
  {
    assert d * n == (d - 1) * n + n;
    assert (d - 1) * n >= 0;
  }

  lemma ModUnique(a: int, n: int, q: int, r: int)
    requires n > 0 && 0 <= r < n && a == q * n + r
    ensures a % n == r
  {
    var q' := a / n;
    var r' := a % n;
    assert q' * n + r' == q * n + r;
    if q' > q {
      MulAtLeast(q' - q, n);
      assert false;
    } else if q' < q {
      MulAtLeast(q - q', n);
      assert false;
    }
  }

  lemma ModSucc(a: nat, n: nat)
    requires n > 0
    ensures (a % n + 1) % n == (a + 1) % n
  {
    var q := a / n;
    var r := a % n;
    if r + 1 < n {
      ModUnique(r + 1, n, 0, r + 1);
      ModUnique(a + 1, n, q, r + 1);
    } else {
      ModUnique(r + 1, n, 1, 0);
      assert a + 1 == (q + 1) * n;
      ModUnique(a + 1, n, q + 1, 0);
    }
  }

  /** The two side-by-side 1920x1080 monitors of the worked examples. */
  const Left: Monitor := Monitor(0, 0, 1920, 1080)
  const Right: Monitor := Monitor(1920, 0, 1920, 1080)

  /** Cycling from (100, 100) on the left monitor sends the pointer to (2880, 540). */
  lemma CycleExample()
    ensures Tick(Full, {LControl, M}, [Left, Right], Point(100, 100)) == [Dispatch(M, 1, Right)]
    ensures PointerTarget(Right) == Point(2880, 540)
  {
    CycleFromLeft({LControl, M});
  }

  /** Ctrl+M (either side) with the pointer on the left monitor targets the right one. */
  lemma CycleFromLeft(keys: KeySnapshot)
    requires CtrlHeld(keys) && keys <= {LControl, RControl, M} && M in keys
    ensures Tick(Full, keys, [Left, Right], Point(100, 100)) == [Dispatch(M, 1, Right)]
  {
    assert Contains(Left, Point(100, 100));
    assert IsFirstMatch([Left, Right], Point(100, 100), 0);
    assert DigitsFrom(keys, [Left, Right], 0) == [];
  }

  /** Ctrl+M with the pointer on the right monitor wraps around to the left one. */
  lemma CycleFromRight()
    ensures Tick(Full, {LControl, M}, [Left, Right], Point(2880, 540)) == [Dispatch(M, 0, Left)]
  {
    assert Contains(Right, Point(2880, 540));
    assert !Contains(Left, Point(2880, 540));
    assert IsFirstMatch([Left, Right], Point(2880, 540), 1);
    assert DigitsFrom({LControl, M}, [Left, Right], 0) == [];
  }

  /** Digit 2 selects the right monitor; digit 3 selects nothing with two monitors. */
  lemma DirectSelectExample()
    ensures Tick(Full, {RControl, Num(2)}, [Left, Right], Point(100, 100)) == [Dispatch(Num(2), 1, Right)]
    ensures Tick(Full, {RControl, Num(3)}, [Left, Right], Point(100, 100)) == []
  {
    DigitTwoSelectsRight();
    DigitThreeSelectsNothing();
  }

  lemma DigitTwoSelectsRight()
    ensures Tick(Full, {RControl, Num(2)}, [Left, Right], Point(100, 100)) == [Dispatch(Num(2), 1, Right)]
  {
    var keys := {RControl, Num(2)};
    assert DigitKey(1) in keys && DigitKey(0) !in keys;
    assert DigitsFrom(keys, [Left, Right], 2) == [];
    assert DigitsFrom(keys, [Left, Right], 1) == [Dispatch(Num(2), 1, Right)];
    assert DigitsFrom(keys, [Left, Right], 0) == [Dispatch(Num(2), 1, Right)];
    assert CycleDispatch(keys, [Left, Right], Point(100, 100)) == [];
  }

  lemma DigitThreeSelectsNothing()
    ensures Tick(Full, {RControl, Num(3)}, [Left, Right], Point(100, 100)) == []
  {
    var keys := {RControl, Num(3)};
    assert DigitsFrom(keys, [Left, Right], 2) == [];
    assert DigitsFrom(keys, [Left, Right], 0) == [];
  }

  /** The samples of the held-cycle example: M held twice, released, pressed again. */
  const HeldCycleSamples: seq<Sample> :=
    [Sample({LControl, M}, Point(100, 100)),
     Sample({LControl, M}, Point(2880, 540)),
     Sample({LControl}, Point(2880, 540)),
     Sample({LControl, M}, Point(2880, 540))]

  /** Each sample of the held-cycle example, one step of the loop at a time. */
  lemma HeldCycleSteps()
    ensures Step(Full, [Left, Right], Idle, HeldCycleSamples[0])
            == StepResult(Suppressed(M, []), Some(Dispatch(M, 1, Right)))
    ensures Step(Full, [Left, Right], Suppressed(M, []), HeldCycleSamples[1])
            == StepResult(Suppressed(M, []), None)
    ensures Step(Full, [Left, Right], Suppressed(M, []), HeldCycleSamples[2])
            == StepResult(Idle, None)
    ensures Step(Full, [Left, Right], Idle, HeldCycleSamples[3])
            == StepResult(Suppressed(M, []), Some(Dispatch(M, 0, Left)))
  {
    CycleExample();
    CycleFromRight();
  }

  /**
    Holding Ctrl+M over several samples cycles once; the key has to be seen
    released before the next press can fire again.
   */
  lemma HeldCycleFiresOnce()
    ensures Run(Full, [Left, Right], HeldCycleSamples)
            == [Fired(0, Dispatch(M, 1, Right)), Fired(3, Dispatch(M, 0, Left))]
  {
    var ms, ss := [Left, Right], HeldCycleSamples;
    HeldCycleSteps();
    var t3 := RunFrom(Full, ms, Idle, ss, 3);
    assert t3 == [Fired(3, Dispatch(M, 0, Left))] + RunFrom(Full, ms, Suppressed(M, []), ss, 4);
    var t2 := RunFrom(Full, ms, Suppressed(M, []), ss, 2);
    assert t2 == t3;
    assert RunFrom(Full, ms, Suppressed(M, []), ss, 1) == t2;
    assert RunFrom(Full, ms, Idle, ss, 0) == [Fired(0, Dispatch(M, 1, Right))] + t2;
  }

  /** The samples of the two-digit example: Ctrl+1+2, then 2 and 1 let go in turn. */
  const TwoDigitSamples: seq<Sample> :=
    [Sample({LControl, Num(1), Num(2)}, Point(100, 100)),
     Sample({LControl, Num(1)}, Point(960, 540)),
     Sample({LControl}, Point(960, 540)),
     Sample({}, Point(2880, 540))]

  /** Ctrl+1+2 in one tick dispatches digit 1, then digit 2. */
  lemma TwoDigitTick()
    ensures Tick(Full, {LControl, Num(1), Num(2)}, [Left, Right], Point(100, 100))
            == [Dispatch(Num(1), 0, Left), Dispatch(Num(2), 1, Right)]
  {
    var keys := {LControl, Num(1), Num(2)};
    assert DigitKey(0) in keys && DigitKey(1) in keys;
    assert DigitsFrom(keys, [Left, Right], 2) == [];
    assert DigitsFrom(keys, [Left, Right], 1) == [Dispatch(Num(2), 1, Right)];
    assert DigitsFrom(keys, [Left, Right], 0) == [Dispatch(Num(1), 0, Left), Dispatch(Num(2), 1, Right)];
    assert CycleDispatch(keys, [Left, Right], Point(100, 100)) == [];
  }

  /** The first sample of the two-digit example fires digit 1 and keeps digit 2 pending. */
  lemma TwoDigitFirstStep()
    ensures Step(Full, [Left, Right], Idle, TwoDigitSamples[0])
            == StepResult(Suppressed(Num(1), [Dispatch(Num(2), 1, Right)]), Some(Dispatch(Num(1), 0, Left)))
  {
    TwoDigitTick();
  }

  /** The later samples of the two-digit example: wait for Num(1), fire digit 2, wait for Num(2). */
  lemma TwoDigitLaterSteps()
    ensures Step(Full, [Left, Right], Suppressed(Num(1), [Dispatch(Num(2), 1, Right)]), TwoDigitSamples[1])
            == StepResult(Suppressed(Num(1), [Dispatch(Num(2), 1, Right)]), None)
    ensures Step(Full, [Left, Right], Suppressed(Num(1), [Dispatch(Num(2), 1, Right)]), TwoDigitSamples[2])
            == StepResult(Suppressed(Num(2), []), Some(Dispatch(Num(2), 1, Right)))
    ensures Step(Full, [Left, Right], Suppressed(Num(2), []), TwoDigitSamples[3])
            == StepResult(Idle, None)
  {
    assert Num(1) in TwoDigitSamples[1].keys;
    assert Num(1) !in TwoDigitSamples[2].keys;
    assert Num(2) !in TwoDigitSamples[3].keys;
  }

  /**
    Ctrl+1+2 in one tick: digit 1 fires at once, digit 2 stays pending and
    fires at the sample where Num(1) is first seen released, even though
    digit 2 is no longer held by then; a further sample without Num(2)
    returns the loop to idle without firing again.
   */
  lemma TwoDigitsFireInTurn()
    ensures Run(Full, [Left, Right], TwoDigitSamples)
            == [Fired(0, Dispatch(Num(1), 0, Left)), Fired(2, Dispatch(Num(2), 1, Right))]
  {
    var ms, ss := [Left, Right], TwoDigitSamples;
    var held1 := Suppressed(Num(1), [Dispatch(Num(2), 1, Right)]);
    TwoDigitFirstStep();
    TwoDigitLaterSteps();
    assert RunFrom(Full, ms, Suppressed(Num(2), []), ss, 3) == RunFrom(Full, ms, Idle, ss, 4);
    var t2 := RunFrom(Full, ms, held1, ss, 2);
    assert t2 == [Fired(2, Dispatch(Num(2), 1, Right))];
    assert RunFrom(Full, ms, held1, ss, 1) == t2;
    assert RunFrom(Full, ms, Idle, ss, 0) == [Fired(0, Dispatch(Num(1), 0, Left))] + t2;
  }
}
