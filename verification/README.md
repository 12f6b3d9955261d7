# blocktime-sim delay engine in Dafny

blocktime-sim shows propagation delay in a replicated system. A "carrot" (the
leader) follows the user's pointer. A "bunny" (the follower) follows the
carrot with lag. The modelled core is in `main.go`:

- the `ringbuffer`: a fixed-capacity circular history of integer points with a
  write cursor `head`;
- the per-tick step `Game.Update`: on every tick it samples the leader into the
  history. Once `blocktimeTicks` ticks have passed since the last refresh, it
  refreshes the follower from `networkTicks` writes back;
- startup in `main`: two durations in milliseconds become tick counts at 100
  ticks per second. A network delay of more than 3000 ticks (the buffer's
  capacity) is rejected.

Files:

- `panics.dfy` (module `Panics`): each Go `panic` is returned as a value
  (`Result`, `Outcome`). A contract can then say exactly when it happens.
- `ring_buffer.dfy` (module `RingBuffers`): the `RingBuffer` class over an
  `array<Point>`. It has a ghost `Writes` sequence of every point written. The
  pure specification `SlotContent` says what each slot holds after a sequence
  of writes. `Recall` says what `read` returns. The lemmas recover history
  from these.
- `delay_policy.dfy` (module `DelayPolicy`): Go's truncating `ms / 10` and the
  `> 3000` startup check.
- `simulation.dfy` (module `Simulation`): the `Game` class. `RefreshTick` and
  `LastRefresh` give the refresh cadence. `Follower` is the reference value of
  the follower position. `Launch` models the startup part of `main`.

Behaviours of the code worth noting:

- Ticks are `ms / 10`, which truncates toward zero.
- The refresh interval has no lower clamp. An interval of at most one tick
  refreshes on every tick.
- The startup check rejects only `networkTicks > 3000`. A lag of exactly 3000
  ticks is accepted. It then reads offset 3000, which wraps onto offset 0, so
  the follower shows the leader with no delay.
- `read` wraps for offsets from the capacity up to `head + capacity` instead of
  failing. With capacity 5, `read(5)` after six writes returns the sixth
  write.
- The first write lands in slot 1, not slot 0. Slots never written read as
  `(0, 0)`.

`IntervalThreeTrace` in `simulation.dfy` is a client that launches a game and
steps it four times. It shows the follower moving only on the refresh tick.

## Model

| member | source | states |
|---|---|---|
| `RingBuffers.RingBuffer.constructor` | main.go:172 | a buffer of the given capacity, every slot `(0, 0)`, cursor at 0, no writes yet |
| `RingBuffers.RingBuffer.Write` | main.go:78-85 | the cursor moves to `(head + 1) % len(buf)`; the point is stored there; every other slot is unchanged; `read(0)` then yields that point |
| `RingBuffers.RingBuffer.Read` | main.go:87-95 | returns what `Recall` gives for the writes so far; for `0 <= offset < len(buf)` that is `buf[(head - offset) mod len(buf)]`; the buffer and cursor are not changed |
| `RingBuffers.SlotHoldsWrite` | main.go:78-85 | write number j stays in slot `j % capacity` until `capacity` more writes have happened |
| `RingBuffers.SlotNeverWritten` | main.go:80-84 | before the first wrap, slot 0 and every slot past the last write still hold `(0, 0)` |
| `RingBuffers.ReadIndexIsMod` | main.go:88-91 | for `0 <= offset < capacity`, adding the capacity once to a negative index gives the non-negative remainder of `writes - offset` |
| `RingBuffers.RecallRecent` | main.go:78-95 | after k writes, `read(offset)` for `0 <= offset < min(k, capacity)` returns write number `k - offset` |
| `RingBuffers.RecallUnwritten` | main.go:87-95 | after k writes, `read(offset)` for `k <= offset < capacity` returns `(0, 0)`, not an error |
| `RingBuffers.RecallFails` | main.go:88-95 | `read` panics with "offset too large" exactly when `offset > head + capacity`; it hits the slice bounds check exactly when `offset <= head - capacity`; offsets `0 .. capacity` never fail |
| `RingBuffers.RecallWraps` | main.go:88-91 | offsets from `capacity` to `head + capacity` return what the offset one capacity smaller returns; `read(capacity)` returns the latest write |
| `RingBuffers.CapacityFiveScenario` | main.go:78-95 | capacity 5, writes (1,1) … (6,6): offset 0 gives (6,6), offset 4 gives (2,2), offset 5 gives (6,6) |
| `RingBuffers.WindowSlides` | main.go:78-95 | after exactly `capacity` writes, offset 0 gives the last write and offset `capacity - 1` the first; after one more write, offset `capacity - 1` gives the second |
| `DelayPolicy.TicksOf` | main.go:165-166 | the tick count t of a duration satisfies `10t <= ms < 10t + 10` for a non-negative duration and `10t - 10 < ms <= 10t` for a negative one: truncation toward zero |
| `DelayPolicy.Startup` | main.go:165-169 | startup succeeds exactly when the network delay is under 30010 ms; otherwise it panics with "memory overflowing"; an accepted lag is at most 3000 ticks |
| `DelayPolicy.DefaultConfig` | main.go:162-166 | the default flags (100 ms, 10 ms) give a lag of 10 ticks and an interval of 1 tick |
| `DelayPolicy.LargestAcceptedDelay` | main.go:165-169 | 30009 ms is accepted as exactly 3000 ticks; 30010 ms is rejected |
| `DelayPolicy.ShortBlockTimeNotClamped` | main.go:166 | a block time strictly between -10 ms and 10 ms becomes an interval of 0 ticks |
| `Simulation.LastRefreshClosedForm` | main.go:136-137 | from a fresh game the last refresh is the latest multiple of the interval, or the current tick when the interval is at most 1 |
| `Simulation.GateFires` | main.go:136-137 | the gate `currentTick - lastBun >= blocktimeTicks` fires exactly at ticks I, 2I, 3I, …, and on every tick when I <= 1 |
| `Simulation.RefreshesAreSpaced` | main.go:136-137 | with an interval of at least one tick, two refreshes are at least the interval apart |
| `Simulation.RefreshInEveryWindow` | main.go:136-137 | with an interval of at least one tick, every window of I consecutive ticks holds a refresh |
| `Simulation.IntervalThreeScenario` | main.go:136-137 | with an interval of 3 ticks, ticks 1 to 10 refresh at 3, 6 and 9 only |
| `Simulation.FollowerIsDelayedLeader` | main.go:133-138 | the follower is the leader as it was `networkTicks` ticks before the last refresh; it is `(0, 0)` while that tick lies before the start; with a lag of exactly 3000 it is the leader at the refresh tick itself |
| `Simulation.Game.constructor` | main.go:171-172 | a zero game over a zero-filled 3000-slot buffer, for a lag already checked against the capacity |
| `Simulation.Game.Update` | main.go:115-142 | the tick grows by exactly 1; the buffer object stays the same; the leader is set and written to the history; `lastBun` and the follower change only on the refresh ticks; then the follower is `read(networkTicks)`; a non-negative lag never panics; the game invariant is kept |
| `Simulation.Launch` | main.go:165-172 | panics exactly when the network delay is 30010 ms or more; otherwise returns a fresh game, with a fresh buffer, holding the converted tick counts |

## Left out

- Image loading in `init` (main.go:29-59): embedded files and image decoding through libraries that are not part of this model.
- `Draw` and `Layout` (main.go:144-159): rendering, float translations and the text overlay.
- Touch and cursor polling in `Update` (main.go:118-131), with the `touches`, `touchGame` and `activeTouchID` fields. The leader position is the `(x, y)` parameter of `Update` instead.
- Flag parsing and the engine calls (main.go:162-164, 170, 174-178): `flag.Duration`, `SetTPS`, the window calls and `RunGame`. The durations are given as whole milliseconds. The engine's loop is whoever calls `Update` once per tick.
- The unused `network` and `blocktime` millisecond fields of `Game` (main.go:107-108).
- Go's 64-bit integer overflow of the tick counter and of durations: integers here are unbounded. The counter would need about 2^63 ticks to overflow.
- Simulation.Game.Update: after a `Fail` outcome the state is not specified further. In Go a panic stops the program, so nothing reads that state.
