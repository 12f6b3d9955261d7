/** Startup: the two configured durations, in whole milliseconds, become tick
    counts at 100 ticks per second, and the network delay is checked against
    the fixed history capacity. */
module DelayPolicy {
  import opened Panics

  /** Slots in the history buffer: 30 seconds at 100 ticks per second. */
  const Capacity: nat := 3000

  /** Milliseconds per tick at 100 ticks per second. */
  const TickMs: int := 10

  datatype Config = Config(networkTicks: int, blocktimeTicks: int)

  /** Go's `ms / 10`: integer division truncating toward zero, also for a
      negative duration. */
  function TicksOf(ms: int): (t: int)
    ensures ms >= 0 ==> TickMs * t <= ms < TickMs * t + TickMs
    ensures ms < 0 ==> TickMs * t - TickMs < ms <= TickMs * t
  {
    if ms >= 0 then ms / TickMs else -((-ms) / TickMs)
  }

  /** Convert both durations; panic when the network delay is more than
      `Capacity` ticks. A delay of exactly `Capacity` ticks is accepted. */
  function Startup(networkMs: int, blocktimeMs: int): (r: Result<Config>)
    ensures r.Ok? <==> networkMs < TickMs * (Capacity + 1)
    ensures r.Err? ==> r.panic == MemoryOverflowing
    ensures r.Ok? ==> r.value.networkTicks <= Capacity
    ensures r.Ok? ==> r.value == Config(TicksOf(networkMs), TicksOf(blocktimeMs))
  {
    var networkTicks := TicksOf(networkMs);
    var blocktimeTicks := TicksOf(blocktimeMs);
    if networkTicks > Capacity then Err(MemoryOverflowing)
    else Ok(Config(networkTicks, blocktimeTicks))
  }

  /** The command-line defaults, 100 ms of network delay and 10 ms of block
      time, give a lag of 10 ticks and a refresh on every tick. */
  lemma DefaultConfig()
    ensures Startup(100, 10) == Ok(Config(10, 1))
  {
  }

  /** The largest accepted network delay is 30009 ms: it truncates to exactly
      `Capacity` ticks, one more than the deepest distinct history offset. */
  lemma LargestAcceptedDelay(blocktimeMs: int)
    ensures Startup(30009, blocktimeMs).Ok?
    ensures Startup(30009, blocktimeMs).value.networkTicks == Capacity
    ensures Startup(30010, blocktimeMs) == Err(MemoryOverflowing)
  {
  }

  /** A block time strictly between -10 ms and 10 ms truncates to an interval
      of 0 ticks: there is no clamp to 1. */
  lemma ShortBlockTimeNotClamped(networkMs: int, blocktimeMs: int)
    requires -TickMs < blocktimeMs < TickMs
    requires networkMs < TickMs * (Capacity + 1)
    ensures Startup(networkMs, blocktimeMs).value.blocktimeTicks == 0
  {
  }
}
