/**
  Gesture recognition for one polling tick, the choice of target monitor, and
  the effect of one dispatch.

  Two program variants share these definitions: `Full` (src/main.rs) has the
  cycle gesture, the direct-select gesture and window placement; `CycleOnly`
  (the older main.rs at the repository root) has the cycle gesture alone and
  only moves the pointer.
 */
module Hotkeys {
  import opened Geometry
  import opened Placement

  /** The logical keys the gestures look at; every other key is `Other`. */
  datatype Key = LControl | RControl | M | Num(digit: nat) | Other(code: nat)

  /** A key-state sample: the set of keys held at one instant. */
  type KeySnapshot = set<Key>

  datatype Variant = Full | CycleOnly

  /** One dispatch: the key that triggered it and the monitor it sends things to. */
  datatype Dispatch = Dispatch(key: Key, index: nat, target: Monitor)

  datatype Option<T> = None | Some(value: T)

  /** Either Control key satisfies the modifier of both gestures. */
  predicate CtrlHeld(keys: KeySnapshot) {
    LControl in keys || RControl in keys
  }

  /** Number of digit keys the direct-select gesture recognises (Key1 .. Key9). */
  const DigitCount: nat := 9

  /** The digit key that selects the monitor at `index`. */
  function DigitKey(index: nat): Key {
    Num(index + 1)
  }

  /** Dispatch `d` sends to the monitor of the layout it names. */
  predicate Targets(ms: seq<Monitor>, d: Dispatch) {
    d.index < |ms| && d.target == ms[d.index]
  }

  /**
    The cycle target: the monitor after the one holding the pointer, wrapping
    around. With no monitors there is nothing to cycle to.
   */
  function CycleIndex(ms: seq<Monitor>, pointer: Point): (r: Option<nat>)
    ensures r.None? <==> |ms| == 0
    ensures r.Some? ==> r.value < |ms|
    ensures r.Some? && r.value > 0 ==> r.value == MonitorIndex(ms, pointer) + 1
    ensures r.Some? && r.value == 0 ==> MonitorIndex(ms, pointer) == |ms| - 1
  {
    if |ms| == 0 then None
    else
      var c := MonitorIndex(ms, pointer);
      WrapStep(c, |ms|);
      Some((c + 1) % |ms|)
  }

  /** Stepping one past an index below `n`, modulo `n`, wraps only at the end. */
  lemma WrapStep(c: nat, n: nat)
    requires c < n
    ensures (c + 1) % n == if c + 1 == n then 0 else c + 1
  {
  }

  /** The cycle gesture of one tick: Ctrl (either side) with M, and at least one monitor. */
  function CycleDispatch(keys: KeySnapshot, ms: seq<Monitor>, pointer: Point): (r: seq<Dispatch>)
    ensures |r| <= 1
    ensures |r| == 1 <==> CtrlHeld(keys) && M in keys && |ms| > 0
    ensures |r| == 1 ==> r[0].key == M && Targets(ms, r[0]) && CycleIndex(ms, pointer) == Some(r[0].index)
  {
    if CtrlHeld(keys) && M in keys then
      match CycleIndex(ms, pointer)
      case None => []
      case Some(i) => [Dispatch(M, i, ms[i])]
    else []
  }

  /** The direct-select dispatch for digit position `i`, if any. */
  predicate DigitSelects(keys: KeySnapshot, ms: seq<Monitor>, i: nat) {
    i < DigitCount && DigitKey(i) in keys && i < |ms|
  }

  /** Indices strictly increase along the sequence. */
  predicate Ascending(ds: seq<Dispatch>) {
    forall a, b | 0 <= a < b < |ds| :: ds[a].index < ds[b].index
  }

  /**
    The digit keys from position `i` on, visited in ascending order: digit
    `k + 1` dispatches to monitor `k` when it is held and `k` is a valid index;
    other digits are ignored.
   */
  function DigitsFrom(keys: KeySnapshot, ms: seq<Monitor>, i: nat): (r: seq<Dispatch>)
    ensures forall k | 0 <= k < |r| ::
              i <= r[k].index && DigitSelects(keys, ms, r[k].index) &&
              r[k].key == DigitKey(r[k].index) && Targets(ms, r[k])
    ensures Ascending(r)
    decreases DigitCount - i
  {
    if i >= DigitCount then []
    else if DigitKey(i) in keys && i < |ms| then [Dispatch(DigitKey(i), i, ms[i])] + DigitsFrom(keys, ms, i + 1)
    else DigitsFrom(keys, ms, i + 1)
  }

  /** Every digit at or after position `i` that selects a monitor has its dispatch. */
  lemma {:induction false} DigitsFromComplete(keys: KeySnapshot, ms: seq<Monitor>, i: nat, j: nat)
    requires i <= j && DigitSelects(keys, ms, j)
    ensures exists k | 0 <= k < |DigitsFrom(keys, ms, i)| :: DigitsFrom(keys, ms, i)[k].index == j
    decreases DigitCount - i
  {
    var r := DigitsFrom(keys, ms, i);
    var rest := DigitsFrom(keys, ms, i + 1);
    if j == i {
      assert r == [Dispatch(DigitKey(i), i, ms[i])] + rest;
      assert r[0].index == j;
    } else {
      DigitsFromComplete(keys, ms, i + 1, j);
      var k :| 0 <= k < |rest| && rest[k].index == j;
      if DigitKey(i) in keys && i < |ms| {
        assert r == [Dispatch(DigitKey(i), i, ms[i])] + rest;
        assert r[k + 1] == rest[k];
      } else {
        assert r == rest;
      }
    }
  }

  /** The direct-select gesture of one tick: only with Ctrl held. */
  function DirectDispatches(keys: KeySnapshot, ms: seq<Monitor>): (r: seq<Dispatch>)
    ensures !CtrlHeld(keys) ==> r == []
    ensures forall k | 0 <= k < |r| ::
              DigitSelects(keys, ms, r[k].index) && r[k].key == DigitKey(r[k].index) && Targets(ms, r[k])
    ensures forall j | CtrlHeld(keys) && DigitSelects(keys, ms, j) ::
              exists k | 0 <= k < |r| :: r[k].index == j
    ensures Ascending(r)
  {
    if CtrlHeld(keys) then
      var r := DigitsFrom(keys, ms, 0);
      assert forall j | DigitSelects(keys, ms, j) :: exists k | 0 <= k < |r| :: r[k].index == j by {
        forall j | DigitSelects(keys, ms, j) ensures exists k | 0 <= k < |r| :: r[k].index == j {
          DigitsFromComplete(keys, ms, 0, j);
        }
      }
      r
    else []
  }

  /** No key triggers two dispatches of the same tick. */
  predicate DistinctKeys(ds: seq<Dispatch>) {
    forall a, b | 0 <= a < b < |ds| :: ds[a].key != ds[b].key
  }

  /**
    The ordered dispatches of one tick, from the snapshot taken at its start:
    the cycle gesture first, then (in the full variant) each selected digit in
    ascending order.
   */
  function Tick(v: Variant, keys: KeySnapshot, ms: seq<Monitor>, pointer: Point): (r: seq<Dispatch>)
    ensures forall k | 0 <= k < |r| :: Targets(ms, r[k])
    ensures DistinctKeys(r)
    ensures (|r| > 0 && r[0].key == M) <==> CtrlHeld(keys) && M in keys && |ms| > 0
    ensures |r| > 0 && r[0].key == M ==> CycleIndex(ms, pointer) == Some(r[0].index)
    ensures forall k | 0 < k < |r| :: r[k].key != M
    ensures v == CycleOnly ==> |r| <= 1 && forall k | 0 <= k < |r| :: r[k].key == M
    ensures forall k | 0 <= k < |r| && r[k].key != M ::
              r[k].key == DigitKey(r[k].index) && CtrlHeld(keys) && DigitSelects(keys, ms, r[k].index)
    ensures forall a, b | 0 <= a < b < |r| && r[a].key != M :: r[a].index < r[b].index
  {
    var c := CycleDispatch(keys, ms, pointer);
    var d := if v == Full then DirectDispatches(keys, ms) else [];
    DigitDispatchesDistinct(d);
    CycleThenDigits(c, d);
    c + d
  }

  /**
    An optional cycle dispatch followed by ascending digit dispatches: keys stay
    distinct, M appears only in front, and the digits keep their order.
   */
  lemma CycleThenDigits(c: seq<Dispatch>, d: seq<Dispatch>)
    requires |c| <= 1 && forall k | 0 <= k < |c| :: c[k].key == M
    requires forall k | 0 <= k < |d| :: d[k].key == DigitKey(d[k].index)
    requires DistinctKeys(d) && Ascending(d)
    ensures DistinctKeys(c + d)
    ensures forall k | 0 < k < |c + d| :: (c + d)[k].key != M
    ensures forall a, b | 0 <= a < b < |c + d| && (c + d)[a].key != M :: (c + d)[a].index < (c + d)[b].index
  {
    forall k | |c| <= k < |c + d| ensures (c + d)[k] == d[k - |c|] && (c + d)[k].key != M {
    }
  }

  /** Digit dispatches in ascending index order are triggered by distinct keys. */
  lemma DigitDispatchesDistinct(d: seq<Dispatch>)
    requires forall k | 0 <= k < |d| :: d[k].key == DigitKey(d[k].index)
    requires Ascending(d)
    ensures DistinctKeys(d)
  {
    forall a, b | 0 <= a < b < |d| ensures d[a].key != d[b].key {
      assert d[a].index < d[b].index;
    }
  }

  /** What the focused-window query returned at dispatch time. */
  datatype WindowQuery = NoFocus | AttributesFailed | Focused(extent: Extent)

  /** A window move: new top-left corner and the size handed to the resize call. */
  datatype WindowMove = WindowMove(corner: Point, size: Extent)

  /** The externally visible result of one dispatch. */
  datatype Effect = Effect(pointer: Point, window: Option<WindowMove>)

  /**
    Applying a dispatch: the pointer always goes to the target's centre; in the
    full variant a focused window whose attributes could be read is centred on
    the target with its size unchanged.
   */
  function Apply(v: Variant, target: Monitor, q: WindowQuery): (e: Effect)
    ensures e.pointer == PointerTarget(target)
    ensures e.window.Some? <==> v == Full && q.Focused?
    ensures e.window.Some? ==>
              e.window.value.size == q.extent &&
              e.window.value.corner == WindowTarget(target, q.extent)
  {
    match q
    case Focused(ext) =>
      if v == Full then Effect(PointerTarget(target), Some(WindowMove(WindowTarget(target, ext), ext)))
      else Effect(PointerTarget(target), None)
    case _ => Effect(PointerTarget(target), None)
  }

  /** The outcome of the program's own cycle arithmetic, which divides by the monitor count. */
  datatype CycleStep = Next(index: nat) | DivisionByZero

  /**
    The cycle step exactly as the program computes it: `(current + 1) % count`,
    which panics when the monitor list is empty.
   */
  function CycleStepAsWritten(current: nat, count: nat): (r: CycleStep)
    ensures r.DivisionByZero? <==> count == 0
    ensures r.Next? ==> r.index < count
  {
    if count == 0 then DivisionByZero else Next((current + 1) % count)
  }

  /** With no monitors the program's cycle step divides by zero. */
  lemma AsWrittenPanicsWithoutMonitors(pointer: Point)
    ensures CycleStepAsWritten(MonitorIndex([], pointer), 0) == DivisionByZero
  {
  }

  /** With at least one monitor the guarded cycle agrees with the program's arithmetic. */
  lemma GuardedCycleAgrees(ms: seq<Monitor>, pointer: Point)
    requires |ms| > 0
    ensures CycleStepAsWritten(MonitorIndex(ms, pointer), |ms|) == Next(CycleIndex(ms, pointer).value)
  {
  }

  /** With no monitors a tick dispatches nothing, whatever keys are held. */
  lemma NoMonitorsNoDispatch(v: Variant, keys: KeySnapshot, pointer: Point)
    ensures Tick(v, keys, [], pointer) == []
  {
  }

  /**
    The direct-select rule: in the full variant, digit `i + 1` triggers a
    dispatch to monitor `i` exactly when Ctrl and the digit are held and `i`
    is a valid monitor index.
   */
  lemma {:induction false} DirectSelectExactly(keys: KeySnapshot, ms: seq<Monitor>, pointer: Point, i: nat)
    requires i < DigitCount
    ensures (exists k | 0 <= k < |Tick(Full, keys, ms, pointer)| ::
               Tick(Full, keys, ms, pointer)[k].key == DigitKey(i))
            <==> CtrlHeld(keys) && DigitKey(i) in keys && i < |ms|
  {
    if CtrlHeld(keys) && DigitKey(i) in keys && i < |ms| {
      DigitFires(keys, ms, pointer, i);
    } else {
      DigitSilent(keys, ms, pointer, i);
    }
  }

  lemma DigitFires(keys: KeySnapshot, ms: seq<Monitor>, pointer: Point, i: nat)
    requires CtrlHeld(keys) && DigitSelects(keys, ms, i)
    ensures exists k | 0 <= k < |Tick(Full, keys, ms, pointer)| ::
              Tick(Full, keys, ms, pointer)[k] == Dispatch(DigitKey(i), i, ms[i])
  {
    var c := CycleDispatch(keys, ms, pointer);
    var d := DigitsFrom(keys, ms, 0);
    DigitsFromComplete(keys, ms, 0, i);
    var k :| 0 <= k < |d| && d[k].index == i;
    AppendedAt(c, d, k);
    assert Tick(Full, keys, ms, pointer) == c + d;
  }

  /** Element `k` of `d` sits at position `|c| + k` of `c + d`. */
  lemma AppendedAt(c: seq<Dispatch>, d: seq<Dispatch>, k: nat)
    requires k < |d|
    ensures |c| + k < |c + d| && (c + d)[|c| + k] == d[k]
  {
  }

  lemma DigitSilent(keys: KeySnapshot, ms: seq<Monitor>, pointer: Point, i: nat)
    requires !(CtrlHeld(keys) && DigitKey(i) in keys && i < |ms|)
    ensures forall k | 0 <= k < |Tick(Full, keys, ms, pointer)| :: Tick(Full, keys, ms, pointer)[k].key != DigitKey(i)
  {
    var c := CycleDispatch(keys, ms, pointer);
    var d := DirectDispatches(keys, ms);
    var r := c + d;
    forall k | 0 <= k < |r| ensures r[k].key != DigitKey(i) {
      if k >= |c| {
        assert r[k] == d[k - |c|];
      }
    }
  }

  /** The older variant never reacts to digit keys: its only dispatch is the cycle. */
  lemma CycleOnlyIgnoresDigits(keys: KeySnapshot, ms: seq<Monitor>, pointer: Point)
    ensures Tick(CycleOnly, keys, ms, pointer) == CycleDispatch(keys, ms, pointer)
  {
  }
}
