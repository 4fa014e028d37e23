/**
  The polling loop as a state machine over a finite stream of samples.

  In `Idle` each sample is a tick: the gestures of its key snapshot are
  evaluated and the first resulting dispatch fires. After every dispatch the
  machine is `Suppressed` by the dispatch's triggering key, together with the
  dispatches of the same tick that have not fired yet. While suppressed, each
  sample only checks whether that key is still held; the first sample without
  it fires the next pending dispatch, or returns to `Idle` when none is left.
  Releasing Control does not matter, only the triggering key.
 */
module Suppression {
  import opened Geometry
  import opened Hotkeys

  datatype State = Idle | Suppressed(key: Key, pending: seq<Dispatch>)

  /** One poll of the environment: the keys held and where the pointer is. */
  datatype Sample = Sample(keys: KeySnapshot, pointer: Point)

  datatype StepResult = StepResult(next: State, fired: Option<Dispatch>)

  /** A dispatch together with the position of the sample at which it fired. */
  datatype Fired = Fired(at: nat, dispatch: Dispatch)

  /** One sample of the loop. */
  function Step(v: Variant, ms: seq<Monitor>, st: State, s: Sample): (r: StepResult)
    ensures st.Suppressed? && st.key in s.keys ==> r.next == st && r.fired.None?
    ensures r.fired.Some? ==> r.next.Suppressed? && r.next.key == r.fired.value.key
    ensures r.fired.Some? && st.Idle? ==>
              var ds := Tick(v, s.keys, ms, s.pointer);
              |ds| > 0 && r.fired.value == ds[0] && r.next.pending == ds[1..] && Targets(ms, r.fired.value)
    ensures r.fired.None? && st.Idle? ==> r.next.Idle? && Tick(v, s.keys, ms, s.pointer) == []
    ensures st.Suppressed? && st.key !in s.keys ==>
              (r.fired.Some? <==> |st.pending| > 0) && (r.next.Idle? <==> |st.pending| == 0)
    ensures st.Suppressed? && st.key !in s.keys && |st.pending| > 0 ==>
              r.fired == Some(st.pending[0]) && r.next == Suppressed(st.pending[0].key, st.pending[1..])
  {
    match st
    case Idle =>
      var ds := Tick(v, s.keys, ms, s.pointer);
      if |ds| == 0 then StepResult(Idle, None)
      else StepResult(Suppressed(ds[0].key, ds[1..]), Some(ds[0]))
    case Suppressed(k, pending) =>
      if k in s.keys then StepResult(st, None)
      else if |pending| == 0 then StepResult(Idle, None)
      else StepResult(Suppressed(pending[0].key, pending[1..]), Some(pending[0]))
  }

  /** Fire positions strictly increase and lie in `[i, |samples|)`. */
  predicate Chronological(t: seq<Fired>, i: nat, n: nat) {
    && (forall k | 0 <= k < |t| :: i <= t[k].at < n)
    && (forall a, b | 0 <= a < b < |t| :: t[a].at < t[b].at)
  }

  /** The dispatches fired while the loop consumes `samples[i..]` starting in state `st`. */
  function RunFrom(v: Variant, ms: seq<Monitor>, st: State, samples: seq<Sample>, i: nat): (t: seq<Fired>)
    requires i <= |samples|
    ensures Chronological(t, i, |samples|)
    decreases |samples| - i
  {
    if i == |samples| then []
    else
      var r := Step(v, ms, st, samples[i]);
      var rest := RunFrom(v, ms, r.next, samples, i + 1);
      if r.fired.Some? then
        ChronologicalCons(Fired(i, r.fired.value), rest, |samples|);
        [Fired(i, r.fired.value)] + rest
      else rest
  }

  /** A dispatch fired at `f.at` followed by a run from the next sample on stays chronological. */
  lemma ChronologicalCons(f: Fired, rest: seq<Fired>, n: nat)
    requires f.at < n && Chronological(rest, f.at + 1, n)
    ensures Chronological([f] + rest, f.at, n)
  {
    var t := [f] + rest;
    forall k | 1 <= k < |t| ensures t[k] == rest[k - 1] {
    }
  }

  /** The whole loop, started in `Idle`. */
  function Run(v: Variant, ms: seq<Monitor>, samples: seq<Sample>): (t: seq<Fired>)
    ensures Chronological(t, 0, |samples|)
  {
    RunFrom(v, ms, Idle, samples, 0)
  }

  /**
    The release wait: the first sample at or after `i` in which `key` is no
    longer held, or `None` if the key stays held to the end of the stream.
   */
  function ReleaseAt(samples: seq<Sample>, key: Key, i: nat): (r: Option<nat>)
    requires i <= |samples|
    ensures r.None? ==> forall j | i <= j < |samples| :: key in samples[j].keys
    ensures r.Some? ==> i <= r.value < |samples| && key !in samples[r.value].keys &&
                        forall j | i <= j < r.value :: key in samples[j].keys
    decreases |samples| - i
  {
    if i == |samples| then None
    else if key !in samples[i].keys then Some(i)
    else ReleaseAt(samples, key, i + 1)
  }

  /**
    While suppressed by `key`, nothing fires before the key is seen released;
    if it is never released, nothing fires at all. When it is released and
    dispatches are pending, the next one fires at the release sample.
   */
  lemma {:induction false} SuppressedUntilRelease(v: Variant, ms: seq<Monitor>, key: Key, pending: seq<Dispatch>,
                                                  samples: seq<Sample>, i: nat)
    requires i <= |samples|
    ensures ReleaseAt(samples, key, i).None? ==> RunFrom(v, ms, Suppressed(key, pending), samples, i) == []
    ensures forall k | 0 <= k < |RunFrom(v, ms, Suppressed(key, pending), samples, i)| ::
              ReleaseAt(samples, key, i).Some? &&
              ReleaseAt(samples, key, i).value <= RunFrom(v, ms, Suppressed(key, pending), samples, i)[k].at
    ensures ReleaseAt(samples, key, i).Some? && |pending| > 0 ==>
              var t := RunFrom(v, ms, Suppressed(key, pending), samples, i);
              |t| > 0 && t[0] == Fired(ReleaseAt(samples, key, i).value, pending[0])
    decreases |samples| - i
  {
    if i < |samples| && key in samples[i].keys {
      SuppressedUntilRelease(v, ms, key, pending, samples, i + 1);
    }
  }

  /** Some sample in `(lo, hi]` shows `key` released. */
  predicate ReleasedIn(samples: seq<Sample>, key: Key, lo: int, hi: int) {
    exists j | lo < j <= hi && 0 <= j < |samples| :: key !in samples[j].keys
  }

  /** Between any dispatch and every later one, the earlier dispatch's key was seen released. */
  predicate ReleasedBetween(t: seq<Fired>, samples: seq<Sample>) {
    forall a, b | 0 <= a < b < |t| :: ReleasedIn(samples, t[a].dispatch.key, t[a].at, t[b].at)
  }

  lemma ConsReleased(f: Fired, rest: seq<Fired>, samples: seq<Sample>)
    requires ReleasedBetween(rest, samples)
    requires forall k | 0 <= k < |rest| :: ReleasedIn(samples, f.dispatch.key, f.at, rest[k].at)
    ensures ReleasedBetween([f] + rest, samples)
  {
    var t := [f] + rest;
    forall a, b | 0 <= a < b < |t| ensures ReleasedIn(samples, t[a].dispatch.key, t[a].at, t[b].at) {
      assert t[b] == rest[b - 1];
      if a > 0 {
        assert t[a] == rest[a - 1];
      }
    }
  }

  /**
    Fire-once-per-press: after any dispatch, no later dispatch fires until a
    sample strictly after it shows the first dispatch's key released. In
    particular the same key cannot fire twice while it stays held.
   */
  lemma {:induction false} ReleaseBetweenDispatches(v: Variant, ms: seq<Monitor>, st: State,
                                                    samples: seq<Sample>, i: nat)
    requires i <= |samples|
    ensures ReleasedBetween(RunFrom(v, ms, st, samples, i), samples)
    decreases |samples| - i
  {
    if i < |samples| {
      var r := Step(v, ms, st, samples[i]);
      var rest := RunFrom(v, ms, r.next, samples, i + 1);
      ReleaseBetweenDispatches(v, ms, r.next, samples, i + 1);
      if r.fired.Some? {
        var f := Fired(i, r.fired.value);
        assert RunFrom(v, ms, st, samples, i) == [f] + rest;
        SuppressedUntilRelease(v, ms, r.next.key, r.next.pending, samples, i + 1);
        forall k | 0 <= k < |rest| ensures ReleasedIn(samples, f.dispatch.key, f.at, rest[k].at) {
          var j := ReleaseAt(samples, r.next.key, i + 1).value;
          assert f.dispatch.key !in samples[j].keys;
        }
        ConsReleased(f, rest, samples);
      }
    }
  }

  /** While the triggering key stays held, later samples fire nothing, however many there are. */
  lemma HeldKeyFiresNothing(v: Variant, ms: seq<Monitor>, key: Key, pending: seq<Dispatch>,
                            samples: seq<Sample>, i: nat)
    requires i <= |samples|
    requires forall j | i <= j < |samples| :: key in samples[j].keys
    ensures RunFrom(v, ms, Suppressed(key, pending), samples, i) == []
  {
    SuppressedUntilRelease(v, ms, key, pending, samples, i);
  }
}
