# Lottery draw engine, verified model

This project models the draw engine of a browser lottery-ball game in Dafny. The game draws the numbers 1 to 90, each exactly once. It has two parts:

- **`Random`** (`random.dfy`, for `src/utils/random.ts`) models `getSecureRandom`, which picks one of the remaining numbers.
  - It draws single random bytes and rejects every byte above `maxValid = floor(256/n)*n - 1`.
  - It indexes the candidate array with `byte % n`.
  - The cryptographic byte source is modelled as the sequence of bytes it would produce, in order.
  - Uniformity is stated as a count: every index 0..n-1 is produced by exactly `(maxValid+1)/n` accepted byte values.
  - `getBallColor` and `getBallColorHex` are modelled through one datatype of five colour bands.
- **`GameState`** (`game_state.dfy`, for `src/hooks/useGameState.ts`) models the `useGameState` hook as a `Game` class.
  - Fields: the draw history `drawnNumbers`, `currentBall`, `isSpinning` and `showZoom`.
  - The two timer handles are the fields `spinTimeoutRef` and `zoomTimeoutRef`.
  - The host's pending timers are the sets `pendingDraw` and `pendingDismiss`, which hold timer ids.
  - `spin`, `dismissZoom` and `reset` are methods.
  - The two `setTimeout` callbacks are the methods `CompleteDraw` (2200 ms) and `AutoDismiss` (3000 ms). Each may run only while its timer is pending.
  - `remaining` is a pure filter of 1..90 against the history.

The object invariant `Game.Valid` holds in every reachable state and states the following:

- The history has no duplicates and lies within 1..90.
- A draw is in flight exactly while the cage spins, and it is the draw that `spinTimeoutRef` names.
- The `remaining` array that the spin callback captured is still the current one when the callback runs.
- The ball on show is the last one drawn.

Timers are modelled as the source handles them:

- `spin` does not clear an earlier auto-dismiss.
- The next draw completion overwrites `zoomTimeoutRef`.
- `dismissZoom` and `reset` clear the timer a handle names, but keep the handle itself.

As a result, an auto-dismiss that no handle names any more can still be pending. `StaleAutoDismiss` shows such a timer hiding the reveal of a later ball.

## Model

| member | source | states |
|---|---|---|
| `Random.SecureRandom` | src/utils/random.ts:5-26 | With no candidates it fails with `NoNumbersRemaining` and draws no byte. With one candidate it returns `remaining[0]` and draws no byte. Otherwise the last byte drawn is the first one `<= maxValid`, every byte before it was rejected, and the result is `remaining[byte % n]`. Every result is an element of `remaining`. The input is a value and is never modified. |
| `Random.AcceptedRange` | src/utils/random.ts:14-15 | For 1 <= n <= 256, `maxValid + 1` is a positive multiple of n, at most 256 and greater than 256 - n. It is at least 129, so more than half of all byte values are accepted. |
| `Random.UniformHits` | src/utils/random.ts:14-24 | For each index i < n, exactly `(maxValid + 1) / n` byte values in 0..maxValid give `byte % n == i`. |
| `Random.BandOf` | src/utils/random.ts:31-37 | The band is red for numbers <= 19, gold for 20-39, green for 40-59, orange for 60-79 and white from 80 up. Each band holds exactly when its range does. |
| `Random.BallColor` | src/utils/random.ts:31-37 | `getBallColor` gives each number the CSS variable of that number's band. |
| `Random.BallColorHex` | src/utils/random.ts:39-45 | `getBallColorHex` gives each number the hex colour of that number's band. |
| `Random.ColoursAgree` | src/utils/random.ts:31-45 | Two numbers get the same CSS colour iff they get the same hex colour iff they lie in the same band. So the two threshold chains select the same band. |
| `GameState.AllNumbers` | src/hooks/useGameState.ts:6 | `ALL_NUMBERS` has 90 entries, and entry k is k + 1. |
| `GameState.Without` | src/hooks/useGameState.ts:31 | The filter keeps exactly the elements of the input that are not in the history. |
| `GameState.WithoutAscending` | src/hooks/useGameState.ts:31 | The filter keeps an ascending input ascending. |
| `GameState.WithoutNothing` | src/hooks/useGameState.ts:31 | When none of the input's elements has been drawn, the filter returns its input unchanged. |
| `GameState.NothingDrawn` | src/hooks/useGameState.ts:6-31 | With an empty history, as after `reset` or at the start, `remaining` is all of `ALL_NUMBERS`. |
| `GameState.RemainingPartition` | src/hooks/useGameState.ts:6-31 | For any valid history, `remaining` is exactly 1..90 minus the history, in ascending order. `remaining.length + drawnNumbers.length == 90`. |
| `GameState.DrawOne` | src/hooks/useGameState.ts:42-44 | Appending a ball picked from `remaining` keeps the history duplicate-free and within 1..90. `remaining` loses exactly that ball and shrinks by one. |
| `GameState.Game.RemainingCount` | src/hooks/useGameState.ts:76 | `remainingCount + drawnNumbers.length == 90`. |
| `GameState.Game.IsComplete` | src/hooks/useGameState.ts:77 | `isComplete` holds iff 90 numbers have been drawn, iff every number 1..90 is in the history. |
| `GameState.Game.constructor` | src/hooks/useGameState.ts:24-29 | The hook starts with an empty history, no ball, not spinning, no zoom, null handles, no pending timers and no captured `remaining`. |
| `GameState.Game.Spin` | src/hooks/useGameState.ts:33-53 | While spinning, when `remaining` is empty, or once the game is complete, the call changes nothing. Otherwise it sets spinning, hides the zoom, clears the ball and leaves the history alone. It schedules exactly one draw completion, which `spinTimeoutRef` names. It captures `remaining` and leaves the pending auto-dismisses untouched. |
| `GameState.Game.CompleteDraw` | src/hooks/useGameState.ts:41-52 | The picked ball is the selector's pick from the `remaining` of the spin. With one candidate it is that candidate. Otherwise it is the candidate indexed by the first accepted byte, taken modulo the number of candidates. It is appended to the history and shown. Spinning stops, the zoom is shown and `remaining` loses exactly that ball. One new auto-dismiss is scheduled and stored in `zoomTimeoutRef`. The invariant keeps the history duplicate-free and within 1..90. |
| `GameState.Game.AutoDismiss` | src/hooks/useGameState.ts:49-51 | The callback only hides the zoom and stops being pending. The history, the ball, spinning and the handles are unchanged. |
| `GameState.Game.DismissZoom` | src/hooks/useGameState.ts:55-60 | Hides the zoom and cancels the auto-dismiss that `zoomTimeoutRef` names. The handle stays set. The history, the ball and spinning are unchanged. |
| `GameState.Game.Reset` | src/hooks/useGameState.ts:62-69 | From any valid state: no draw is pending, the timer each handle names is cancelled and the history is empty, so `remaining` is all of 1..90 (`NothingDrawn`). There is no ball, no spinning and no zoom. Both handles, the timer counter and the captured `remaining` are kept. |
| `GameState.StaleAutoDismiss` | src/hooks/useGameState.ts:33-53 | Spin, complete, then spin and complete again before the first auto-dismiss runs. The first auto-dismiss is still pending and no handle names it. When it runs it hides the second ball's reveal. |

## Left out

- `crypto.getRandomValues` is not modelled as a source of randomness. The selector receives the bytes it would produce, and uniformity is stated only as the count in `Random.UniformHits`, not as a probability.
- `Random.SecureRandom`: when none of the given bytes is accepted, it returns `EntropyExhausted`. The source would keep drawing bytes. This includes more than 256 candidates, where `maxValid` is -1 and the source never returns. The game never has more than 90 candidates.
- `GameState.Game.CompleteDraw` requires the given bytes to contain an accepted one (or only one candidate to remain). Its contract gives the selector's pick from those bytes, so the callback is modelled only for byte streams on which the selector's loop ends.
- The wall-clock delays (2200 ms, 3000 ms and the 200 ms fanfare offset in `src/app/page.tsx`) are not modelled. A pending timer may run at any point and in any order relative to the other pending timers. This allows more orders than the deadlines do, so every invariant proved also holds for the real timing.
- React mechanics are not modelled: re-rendering, `useCallback` memoisation and a second click arriving before a re-render. The hook's state is one object whose methods run one at a time.
- `src/hooks/useAudio.ts`, `src/components/Confetti.tsx`, `src/components/BingoCage.tsx`, `src/components/Controls.tsx`, `src/components/DrawnNumbers.tsx`, `src/components/Ball.tsx`, `src/components/BallZoom.tsx`, `src/app/page.tsx` and `src/app/layout.tsx` are not part of this model. They are audio, animation, layout and rendering, and none of them changes the game state.
