/** The per-tick step: the leader ("carrot") position is sampled into the
    history buffer on every tick, and the follower ("bunny") position is
    refreshed from `networkTicks` writes back whenever at least
    `blocktimeTicks` ticks have passed since the last refresh. */
module Simulation {
  import opened Panics
  import opened RingBuffers
  import opened DelayPolicy

  /** The cadence promised for a game started fresh with interval `interval`:
      the follower is refreshed at ticks `interval`, `2 * interval`, …, and on
      every tick when the interval is at most one tick. */
  predicate RefreshTick(t: int, interval: int) {
    t >= 1 && (interval <= 1 || t % interval == 0)
  }

  /** The most recent refresh tick at or before tick `t`, or 0 before the
      first one. */
  function LastRefresh(t: nat, interval: int): (r: nat)
    ensures r <= t
  {
    if t == 0 then 0
    else if RefreshTick(t, interval) then t
    else LastRefresh(t - 1, interval)
  }

  /** The last refresh is the latest multiple of the interval, or the current
      tick when the interval is at most one. */
  lemma {:induction false} LastRefreshClosedForm(t: nat, interval: int)
    ensures LastRefresh(t, interval) == if interval <= 1 then t else t - t % interval
  {
    if t > 0 {
      LastRefreshClosedForm(t - 1, interval);
      if interval > 1 {
        ModStep(t - 1, interval);
      }
    }
  }

  /** The gate `currentTick - lastBun >= blocktimeTicks` of a step, taken
      with the last refresh of the previous tick, fires exactly on the
      promised refresh ticks. */
  lemma GateFires(t: nat, interval: int)
    requires t >= 1
    ensures t - LastRefresh(t - 1, interval) >= interval <==> RefreshTick(t, interval)
  {
    LastRefreshClosedForm(t - 1, interval);
    if interval > 1 {
      ModStep(t - 1, interval);
    }
  }

  /** With an interval of at least one tick, two refreshes are never closer
      than the interval. */
  lemma RefreshesAreSpaced(t1: int, t2: int, interval: int)
    requires interval >= 1
    requires RefreshTick(t1, interval) && RefreshTick(t2, interval) && t1 < t2
    ensures t2 - t1 >= interval
  {
    if interval > 1 && t2 - t1 < interval {
      ModDistinct(t2, t2 - t1, interval);
    }
  }

  /** With an interval of at least one tick, every window of `interval`
      consecutive ticks holds a refresh. */
  lemma RefreshInEveryWindow(t: nat, interval: int)
    requires interval >= 1
    ensures t < LastRefresh(t + interval, interval) <= t + interval
  {
    LastRefreshClosedForm(t + interval, interval);
  }

  /** With an interval of 3 ticks, ticks 1 to 10 refresh at 3, 6 and 9 only. */
  lemma IntervalThreeScenario()
    ensures seq(10, i => RefreshTick(i + 1, 3))
         == [false, false, true, false, false, true, false, false, true, false]
    ensures LastRefresh(10, 3) == 9
  {
  }

  /** The follower position of a game whose last refresh was at tick
      `lastBun`, after the leader positions `leader` (tick `t` sampled
      `leader[t - 1]`). */
  function Follower(leader: seq<Point>, lastBun: nat, lag: int): (r: Result<Point>)
    requires lastBun <= |leader|
  {
    if lastBun == 0 then Ok(Origin) else Recall(leader[..lastBun], Capacity, lag)
  }

  /** The follower shows the leader as it was `lag` ticks before the last
      refresh; the origin while that tick lies before the start; and, for a
      lag of exactly `Capacity` ticks, the leader at the refresh tick itself. */
  lemma FollowerIsDelayedLeader(leader: seq<Point>, lastBun: nat, lag: int)
    requires lastBun <= |leader|
    ensures 0 <= lag < lastBun && lag < Capacity ==> Follower(leader, lastBun, lag) == Ok(leader[lastBun - 1 - lag])
    ensures lastBun <= lag < Capacity ==> Follower(leader, lastBun, lag) == Ok(Origin)
    ensures lag == Capacity && lastBun > 0 ==> Follower(leader, lastBun, lag) == Ok(leader[lastBun - 1])
    ensures 0 <= lag <= Capacity ==> Follower(leader, lastBun, lag).Ok?
  {
    if lastBun > 0 {
      var h := leader[..lastBun];
      RecallFails(h, Capacity, lag);
      if 0 <= lag < lastBun && lag < Capacity {
        RecallRecent(h, Capacity, lag);
      } else if lastBun <= lag < Capacity {
        RecallUnwritten(h, Capacity, lag);
      } else if lag == Capacity {
        RecallWraps(h, Capacity, lag);
      }
    }
  }

  class Game {
    var bunX: int
    var bunY: int
    var carrotX: int
    var carrotY: int
    var lastBun: int
    var currentTick: int
    const b: RingBuffer
    const networkTicks: int
    const blocktimeTicks: int

    ghost predicate Valid()
      reads this, b, b.buf
    {
      b.Valid() && b.buf.Length == Capacity &&
      networkTicks <= Capacity &&
      currentTick == |b.Writes| &&
      lastBun == LastRefresh(currentTick, blocktimeTicks) &&
      Point(carrotX, carrotY) == (if currentTick == 0 then Origin else b.Writes[currentTick - 1]) &&
      Follower(b.Writes, lastBun, networkTicks) == Ok(Point(bunX, bunY))
    }

    /** A zero game over a zero-filled buffer of `Capacity` slots; the caller
        has already rejected a network delay above `Capacity` ticks. */
    constructor (networkTicks: int, blocktimeTicks: int)
      requires networkTicks <= Capacity
      ensures Valid() && fresh(b) && fresh(b.buf)
      ensures this.networkTicks == networkTicks && this.blocktimeTicks == blocktimeTicks
      ensures currentTick == 0 && lastBun == 0 && b.Writes == []
      ensures carrotX == 0 && carrotY == 0 && bunX == 0 && bunY == 0
    {
      this.networkTicks := networkTicks;
      this.blocktimeTicks := blocktimeTicks;
      bunX, bunY, carrotX, carrotY := 0, 0, 0, 0;
      lastBun, currentTick := 0, 0;
      b := new RingBuffer(Capacity);
    }

    /** One tick with the leader at `(x, y)`. A `Fail` outcome is a panic in
        `read`, which stops the program; it needs a negative network delay. */
    method Update(x: int, y: int) returns (r: Outcome)
      requires Valid()
      modifies this, b, b.buf
      ensures currentTick == old(currentTick) + 1
      ensures carrotX == x && carrotY == y
      ensures b.buf == old(b.buf)
      ensures b.Writes == old(b.Writes) + [Point(x, y)]
      ensures lastBun == if RefreshTick(currentTick, blocktimeTicks) then currentTick else old(lastBun)
      ensures !RefreshTick(currentTick, blocktimeTicks) ==> bunX == old(bunX) && bunY == old(bunY)
      ensures r.Fail? <==> RefreshTick(currentTick, blocktimeTicks) && Recall(b.Writes, Capacity, networkTicks).Err?
      ensures RefreshTick(currentTick, blocktimeTicks) && r.Pass? ==> Ok(Point(bunX, bunY)) == Recall(b.Writes, Capacity, networkTicks)
      ensures networkTicks >= 0 ==> r.Pass?
      ensures r.Pass? ==> Valid()
    {
      GateFires(currentTick + 1, blocktimeTicks);
      currentTick := currentTick + 1;
      carrotX, carrotY := x, y;
      b.Write(carrotX, carrotY);
      assert b.Writes[..currentTick] == b.Writes;
      if currentTick - lastBun >= blocktimeTicks {
        lastBun := currentTick;
        RecallFails(b.Writes, Capacity, networkTicks);
        var p := b.Read(networkTicks);
        match p
        case Ok(pt) =>
          bunX, bunY := pt.x, pt.y;
        case Err(e) =>
          return Fail(e);
      } else {
        assert b.Writes[..lastBun] == old(b.Writes)[..lastBun];
      }
      return Pass;
    }
  }

  /** Startup: convert the durations, panic on a network delay above
      `Capacity` ticks, otherwise build a fresh game. */
  method Launch(networkMs: int, blocktimeMs: int) returns (r: Result<Game>)
    ensures r.Err? <==> networkMs >= TickMs * (Capacity + 1)
    ensures r.Err? ==> r.panic == MemoryOverflowing
    ensures r.Ok? ==> fresh(r.value) && fresh(r.value.b) && fresh(r.value.b.buf) && r.value.Valid() && r.value.currentTick == 0
    ensures r.Ok? ==> r.value.networkTicks == TicksOf(networkMs) && r.value.blocktimeTicks == TicksOf(blocktimeMs)
  {
    match Startup(networkMs, blocktimeMs)
    case Err(e) =>
      r := Err(e);
    case Ok(cfg) =>
      var g := new Game(cfg.networkTicks, cfg.blocktimeTicks);
      r := Ok(g);
  }

  /** A client run: 30 ms of block time and 10 ms of network delay, with the
      leader at (1,1), (2,2), (3,3), (4,4) on ticks 1 to 4. The follower moves
      once, at tick 3, to where the leader was one tick earlier. */
  method IntervalThreeTrace() {
    var launched := Launch(10, 30);
    var g := launched.value;
    assert g.networkTicks == 1 && g.blocktimeTicks == 3;
    var r := g.Update(1, 1);
    assert g.bunX == 0 && g.bunY == 0;
    r := g.Update(2, 2);
    assert g.bunX == 0 && g.bunY == 0;
    r := g.Update(3, 3);
    assert g.b.Writes == [Point(1, 1), Point(2, 2), Point(3, 3)];
    RecallRecent(g.b.Writes, Capacity, 1);
    assert g.lastBun == 3 && g.bunX == 2 && g.bunY == 2;
    r := g.Update(4, 4);
    assert g.lastBun == 3 && g.bunX == 2 && g.bunY == 2;
    assert g.carrotX == 4 && g.carrotY == 4;
  }
}
