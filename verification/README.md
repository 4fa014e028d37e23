# dual-monitor-tweak: monitor resolution, placement and hotkey dispatch

A Dafny model of the decision logic of a small X11 hotkey utility that moves
the pointer, and the focused window, between monitors:

- **Monitor resolution** (`Geometry`): the first monitor, in enumeration
  order, whose half-open rectangle `[x, x+width) × [y, y+height)` contains a
  point; 0 when none does.
- **Placement** (`Placement`): the pointer goes to the monitor's centre, the
  window's top-left corner is chosen so that the window is centred, both with
  the program's truncating integer division (`TruncDiv`), and without clamping.
- **Gestures of one tick** (`Hotkeys`): Ctrl+M cycles to the monitor after the
  one holding the pointer; Ctrl+1 … Ctrl+9 select monitors 0 … 8 when they
  exist. One tick becomes an ordered list of dispatches (cycle first, then the
  digits in ascending order). `Apply` gives the effect of one dispatch.
- **Suppression** (`Suppression`): the polling loop as a state machine
  `Idle | Suppressed(key, pending)` over a finite stream of samples. After a
  dispatch nothing else fires until a fresh sample shows its triggering key
  released; Ctrl does not have to be released.
- **Scenarios**: cross-module properties (repeated cycling visits the monitors
  in order) and the two-monitor worked examples.

The two program files share these definitions. `src/main.rs` is the variant
`Full`. The older `main.rs` at the repository root is the variant `CycleOnly`:
it has only the cycle gesture and only moves the pointer.

Coordinates are mathematical integers. The program uses `i32`.
`Geometry.FitsI32` names that range, and `Placement.PointerTargetFitsI32`
shows the pointer arithmetic cannot overflow for such monitors.

Points where the code's behaviour may differ from what one would expect:

- One could expect the window's corner plus half its size to equal the
  monitor centre. With truncating division it can be off by one
  (`Placement.WindowCentreCanMissPointer`). The exact bound is in
  `Placement.WindowCentreNearPointer`.
- The code does not check that monitor sizes are non-negative, so the model
  accepts any size. `Geometry.DegenerateNeverMatches` covers the zero- and
  negative-size case.
- The code has no guard for an empty monitor list. See Findings.

## Model

| member | source | states |
|---|---|---|
| Geometry.ScanFrom | src/main.rs:71-76 | from position i on: when some monitor at or after i contains the point, the result is the first such index; otherwise the result is the fallback 0 |
| Geometry.MonitorIndex | src/main.rs:70-77 | some monitor contains the point exactly when the result is the lowest containing index; otherwise 0, including for an empty list; below the count whenever the list is non-empty |
| Geometry.DegenerateNeverMatches | main.rs:72 | a monitor with width ≤ 0 or height ≤ 0 contains no point, and it is the result only as the fallback 0 when no monitor matches |
| Geometry.ResolveNonOverlapping | main.rs:70-76 | when no two monitors overlap, a point inside monitor k resolves to k |
| Geometry.ResolveIgnoresLaterMonitors | src/main.rs:71-74 | once a monitor of the list contains the point, appending more monitors after the list does not change the result (early return) |
| Placement.TruncDiv | src/main.rs:103 | `/` on i32 truncates toward zero: the remainder is smaller than the divisor in magnitude and never has the opposite sign of the dividend |
| Placement.TruncDivNegate | src/main.rs:104 | truncating division of a negated dividend is the negated quotient |
| Placement.TruncHalfOfNegativeOdd | src/main.rs:103-104 | halving a negative odd size rounds up, one more than Dafny's Euclidean division |
| Placement.PointerTarget | src/main.rs:135-136 | the pointer's offset from the corner is half the size rounded toward zero: twice the offset falls short of the size by 0 or 1 (exceeds it by 0 or 1 for a negative size) |
| Placement.PointerTargetInside | src/main.rs:169-170 | the centre lies inside the monitor exactly when the monitor has positive width and height |
| Placement.PointerTargetFitsI32 | main.rs:101-102 | for a monitor whose fields and edges fit i32, of any sign of size, both centre coordinates fit i32 |
| Placement.WindowTarget | src/main.rs:102-104 | the right (bottom) margin minus the left (top) margin is 0 or 1 when the window fits, 0 or -1 when it is larger than the monitor |
| Placement.WindowFitsInside | src/main.rs:103-104 | a window no larger than the monitor lies entirely inside it after the move |
| Placement.WindowMayOverhang | src/main.rs:102-106 | no clamping: the corner is left of (above) the monitor's origin exactly when the window is at least 2 wider (taller) than the monitor |
| Placement.WindowCentreNearPointer | src/main.rs:103-104 | the window's centre is within 1 of the pointer target on each axis, and equal to it when both sizes are even |
| Placement.WindowCentreCanMissPointer | src/main.rs:135-136 | a 2×2 monitor at the origin and a 1×1 window give corner (0,0) and pointer (1,1), so the two centres differ |
| Hotkeys.CycleIndex | src/main.rs:131-133 | none exactly when there are no monitors; otherwise a valid index one past the pointer's monitor, or 0 when the pointer's monitor is the last |
| Hotkeys.CycleDispatch | src/main.rs:126-133 | one dispatch exactly when either Ctrl and M are held and a monitor exists; it is keyed by M and targets the cycle index |
| Hotkeys.DigitsFrom | src/main.rs:153-167 | every dispatch from digit position i on is a held digit k+1 with k < 9 and k below the monitor count, targeting monitor k, in ascending order |
| Hotkeys.DigitsFromComplete | src/main.rs:165-167 | every held digit at or after position i whose index is below the monitor count has its dispatch |
| Hotkeys.DirectDispatches | src/main.rs:150-167 | nothing without Ctrl; with Ctrl, exactly the held digits whose index exists, each targeting that monitor, in ascending order |
| Hotkeys.Tick | src/main.rs:122-183 | every dispatch targets an existing monitor; keys never repeat within a tick; the first dispatch is keyed M exactly when the cycle gesture applies, and then it targets the cycle index; no later dispatch is keyed M; every dispatch not keyed M is a held digit k+1, with Ctrl held and k below the monitor count, targeting monitor k, in ascending order; the cycle-only variant dispatches at most once and only for M |
| Hotkeys.DirectSelectExactly | src/main.rs:165-166 | in the full variant, digit i+1 fires in a tick exactly when Ctrl and the digit are held and i is below the monitor count |
| Hotkeys.Apply | src/main.rs:138-142 | the pointer always moves to the target's centre; a window moves exactly when the variant is full and a focused window's attributes were read; it keeps its size and gets the centring corner |
| Hotkeys.CycleStepAsWritten | src/main.rs:132 | the program's `(current + 1) % count` divides by zero exactly when the count is 0, and otherwise gives an index below the count |
| Hotkeys.AsWrittenPanicsWithoutMonitors | main.rs:99 | with an empty monitor list the program's cycle step divides by zero |
| Hotkeys.GuardedCycleAgrees | main.rs:98-100 | with at least one monitor the guarded cycle index equals the program's arithmetic |
| Hotkeys.NoMonitorsNoDispatch | src/main.rs:129-133 | with no monitors a tick dispatches nothing, whatever keys are held |
| Hotkeys.CycleOnlyIgnoresDigits | main.rs:91-113 | the older variant's tick is the cycle gesture alone: digit keys never dispatch |
| Suppression.Step | src/main.rs:122-183 | a suppressed state whose key is still held is unchanged and fires nothing; any dispatch leaves the machine suppressed by that dispatch's key; an idle step fires the tick's first dispatch and keeps the rest pending; on release of the key the first pending dispatch fires and the rest stay queued, and with nothing pending the machine returns to idle |
| Suppression.RunFrom | src/main.rs:122-186 | dispatches fire at strictly increasing sample positions within the stream |
| Suppression.Run | main.rs:91-113 | the loop started idle fires at strictly increasing sample positions |
| Suppression.ReleaseAt | src/main.rs:144-146 | the first sample at or after i without the key, with the key held in every sample before it; none when the key is held to the end |
| Suppression.SuppressedUntilRelease | src/main.rs:178-180 | while suppressed by a key, nothing fires before the key's release sample, nothing at all if it is never released, and the next pending dispatch fires at the release sample |
| Suppression.ReleaseBetweenDispatches | src/main.rs:138-180 | between any dispatch and every later one, some sample after the first shows its triggering key released |
| Suppression.HeldKeyFiresNothing | main.rs:107-109 | however many samples still hold the triggering key, nothing fires |
| Scenarios.CycleFromCentre | src/main.rs:129-136 | in a non-overlapping layout whose monitors all have area, cycling from the centre of monitor k targets k+1, or 0 after the last monitor |
| Scenarios.AdvanceIsMod | main.rs:99 | stepping an index by one n times with wrap-around equals adding n modulo the count |
| Scenarios.CycleTimesAdvance | main.rs:96-105 | n cycles from the centre of monitor k, with no other pointer movement, leave the pointer at the centre of the monitor n wrapping steps further on |
| Scenarios.CycleTimesVisitsInOrder | src/main.rs:131-138 | n cycles from the centre of monitor k reach the centre of monitor (k+n) mod count, and count cycles return to the start |
| Scenarios.CycleExample | src/main.rs:126-138 | two side-by-side 1920×1080 monitors, pointer at (100,100): Ctrl+M dispatches to the right monitor, centre (2880,540) |
| Scenarios.DirectSelectExample | src/main.rs:165-170 | same layout: Ctrl+2 dispatches to the right monitor, Ctrl+3 does nothing |
| Scenarios.TwoDigitsFireInTurn | src/main.rs:165-180 | Ctrl+1+2 in one tick: digit 1 fires at once, digit 2 fires at the sample where 1 is first seen released (from the tick's snapshot, though 2 is no longer held), and nothing fires after |
| Scenarios.HeldCycleFiresOnce | main.rs:92-109 | Ctrl+M held over two samples fires once; after a sample without M, the next press fires again and goes back to the left monitor |

## Left out

- X11 and XRandR calls (`get_monitors`, `get_cursor_position`, `move_cursor`, `get_focused_window`, `XGetWindowAttributes`, `XMoveResizeWindow`, `XFlush`) are foreign calls. The monitor list, the pointer position (`Sample.pointer`) and the focused-window query (`WindowQuery`) are inputs. The pointer warp and the window move are the `Effect` values.
- Keyboard sampling through `device_query` is a `Sample` in a finite stream, with the held keys as a set. Keys other than Ctrl, M and the digits are `Other`.
- The 100 ms and 50 ms sleeps: timing does not affect any decision.
- The endless outer loop and the possibly endless release wait: `Run` consumes a finite stream. A key held to the end of the stream means nothing more fires (`ReleaseAt` returns none).
- Failing to open the display and the `eprintln!` diagnostic are process I/O.
- Suppression.Run: uses one monitor list for the whole run. The program fetches the list again in every gesture block of every tick (src/main.rs:129, :151), so a change of layout at any point of the run is not modelled: neither between ticks nor between the cycle gesture and the digit gesture of one tick.
- Placement.WindowTarget: computed over mathematical integers. The i32 overflow of `monitor.x + (monitor.width - width) / 2` for coordinates near the ends of the i32 range is not modelled. Neither is the `as u32` cast of a negative window size.
- The `usize` arithmetic `current_index + 1` cannot overflow for any real monitor count, so it is modelled as plain addition.

## Findings

| source | as written | input that shows it | evidently intended | confidence | as-written member | corrected member |
|---|---|---|---|---|---|---|
| src/main.rs:132 | `(current_index + 1) % monitors.len()` with no check on the length | XRandR reports no monitors while Ctrl+M is held: remainder by zero, the program panics | with no monitors the cycle gesture does nothing | medium, not executed | Hotkeys.CycleStepAsWritten | Hotkeys.NoMonitorsNoDispatch |
| main.rs:99 | the same unguarded `% monitors.len()` in the older variant | the same input: an empty monitor list with Ctrl+M held | the same: no dispatch | medium, not executed | Hotkeys.AsWrittenPanicsWithoutMonitors | Hotkeys.NoMonitorsNoDispatch |
