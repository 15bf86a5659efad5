/**
 * The background monitor (Services/ProcessMonitorWorker.cs): on every tick it
 * takes the registry's records, keeps those alive at the tick, and renews the
 * heartbeat of each of them that is flagged keep-alive.
 *
 * `Ticked` says what one tick does to the whole map and `RunTicks` what a
 * sequence of ticks does; `ProcessMonitorWorker.Tick` and `.Run` perform the
 * ticks on a `HeartbeatRegistry` through its `RegisterHeartbeat`.
 */
module Monitor {
  import opened Status
  import opened Registry

  /** A record the monitor renews at a tick: alive at the tick and flagged keep-alive. */
  predicate DueForRenewal(p: ProcessStatus, now: Time)
  {
    IsAlive(p, now) && p.keepAlive
  }

  /**
   * One monitor tick on the map: exactly the records due for renewal get the
   * tick time as their heartbeat; no id appears or disappears and no record
   * changes its id, flag or window.
   */
  function Ticked(m: Statuses, now: Time): (r: Statuses)
    ensures r.Keys == m.Keys
    ensures forall id :: id in m ==>
      && r[id].processId == m[id].processId
      && r[id].keepAlive == m[id].keepAlive
      && r[id].expirationSeconds == m[id].expirationSeconds
    ensures forall id :: id in m && !DueForRenewal(m[id], now) ==> r[id] == m[id]
    ensures forall id :: id in m && DueForRenewal(m[id], now) ==> r[id].lastHeartbeat == now
  {
    map id | id in m :: if DueForRenewal(m[id], now) then m[id].(lastHeartbeat := now) else m[id]
  }

  /** The map after the monitor has ticked at each of `ticks`, in order. */
  function RunTicks(m: Statuses, ticks: seq<Time>): (r: Statuses)
    ensures r.Keys == m.Keys
    ensures forall id :: id in m ==>
      && r[id].processId == m[id].processId
      && r[id].keepAlive == m[id].keepAlive
      && r[id].expirationSeconds == m[id].expirationSeconds
    ensures forall id :: id in m && !m[id].keepAlive ==> r[id] == m[id]
    decreases |ticks|
  {
    if ticks == [] then m
    else Ticked(RunTicks(m, ticks[..|ticks| - 1]), ticks[|ticks| - 1])
  }

  /** A tick neither revives nor kills a record at the tick instant. */
  lemma TickKeepsLivenessAtTick(m: Statuses, id: string, now: Time)
    requires id in m && m[id].expirationSeconds >= 0
    ensures IsAlive(Ticked(m, now)[id], now) == IsAlive(m[id], now)
  {
  }

  /** A record the monitor renews is alive at the tick with the tick as its heartbeat. */
  lemma TickRenewsDue(m: Statuses, id: string, now: Time)
    requires id in m && DueForRenewal(m[id], now) && m[id].expirationSeconds >= 0
    ensures Ticked(m, now)[id].lastHeartbeat == now && IsAlive(Ticked(m, now)[id], now)
  {
  }

  /** A tick preserves the registry's invariant. */
  lemma TickKeepsWellFormed(m: Statuses, now: Time, expiration: int)
    requires FiledById(m) && UniformExpiration(m, expiration)
    ensures FiledById(Ticked(m, now)) && UniformExpiration(Ticked(m, now), expiration)
  {
  }

  /** Ticking at the first `k` times is ticking at the first `k - 1` and then at the `k`-th. */
  lemma RunTicksStep(m: Statuses, ticks: seq<Time>, k: nat)
    requires 0 < k <= |ticks|
    ensures RunTicks(m, ticks[..k]) == Ticked(RunTicks(m, ticks[..k - 1]), ticks[k - 1])
  {
    assert ticks[..k][..k - 1] == ticks[..k - 1];
  }

  /**
   * The step of the keep-alive argument: a keep-alive record alive when the
   * monitor looks at it at `ticks[k]`, for every `k`, as long as no gap
   * between consecutive ticks exceeds its window.
   */
  lemma {:induction false} AliveAtEveryTick(m: Statuses, id: string, ticks: seq<Time>, k: nat)
    requires id in m && m[id].keepAlive
    requires 0 < |ticks| && IsAlive(m[id], ticks[0])
    requires forall i :: 0 < i < |ticks| ==> ticks[i] - ticks[i - 1] <= m[id].expirationSeconds
    requires k < |ticks|
    ensures id in RunTicks(m, ticks[..k]) && IsAlive(RunTicks(m, ticks[..k])[id], ticks[k])
  {
    if k == 0 {
      assert ticks[..0] == [];
    } else {
      AliveAtEveryTick(m, id, ticks, k - 1);
      RunTicksStep(m, ticks, k);
      var before := RunTicks(m, ticks[..k - 1]);
      assert DueForRenewal(before[id], ticks[k - 1]);
    }
  }

  /**
   * Keep-alive theorem: a keep-alive record alive at the first tick is alive
   * at every tick and carries the last tick as its heartbeat, provided no two
   * consecutive ticks are further apart than its window (and nothing removes it).
   */
  lemma {:induction false} KeepAliveNeverExpires(m: Statuses, id: string, ticks: seq<Time>)
    requires id in m && m[id].keepAlive
    requires 0 < |ticks| && IsAlive(m[id], ticks[0])
    requires forall i :: 0 < i < |ticks| ==> ticks[i] - ticks[i - 1] <= m[id].expirationSeconds
    ensures forall k :: 0 <= k < |ticks| ==>
      id in RunTicks(m, ticks[..k]) && IsAlive(RunTicks(m, ticks[..k])[id], ticks[k])
    ensures id in RunTicks(m, ticks) && RunTicks(m, ticks)[id].lastHeartbeat == ticks[|ticks| - 1]
  {
    forall k | 0 <= k < |ticks|
      ensures id in RunTicks(m, ticks[..k]) && IsAlive(RunTicks(m, ticks[..k])[id], ticks[k])
    {
      AliveAtEveryTick(m, id, ticks, k);
    }
    var n := |ticks|;
    AliveAtEveryTick(m, id, ticks, n - 1);
    assert ticks[..n][..n - 1] == ticks[..n - 1];
    assert ticks[..n] == ticks;
  }

  /**
   * The pacing of the worker's loop: each pass waits at least `interval`
   * seconds after the previous one has finished its renewals, so a gap is the
   * interval plus the time a pass and the wake-up take, here at most `overhead`.
   */
  predicate PacedBy(ticks: seq<Time>, interval: int, overhead: int)
  {
    forall i :: 0 < i < |ticks| ==> ticks[i - 1] + interval <= ticks[i] <= ticks[i - 1] + interval + overhead
  }

  /**
   * A keep-alive record alive at the first tick stays alive at every tick when
   * the interval plus the overhead of a pass fits in its window. With a clock
   * finer than the model's, the overhead is positive, so the interval must be
   * strictly smaller than the window.
   */
  lemma KeepAliveUnderDelay(m: Statuses, id: string, ticks: seq<Time>, interval: int, overhead: int)
    requires id in m && m[id].keepAlive
    requires 0 < |ticks| && IsAlive(m[id], ticks[0])
    requires PacedBy(ticks, interval, overhead) && interval + overhead <= m[id].expirationSeconds
    ensures forall k :: 0 <= k < |ticks| ==>
      id in RunTicks(m, ticks[..k]) && IsAlive(RunTicks(m, ticks[..k])[id], ticks[k])
  {
    KeepAliveNeverExpires(m, id, ticks);
  }

  /**
   * Between two ticks the record renewed at the earlier one stays alive up to
   * the later one, so it is alive whenever anyone looks, not only at ticks.
   */
  lemma AliveBetweenTicks(m: Statuses, id: string, ticks: seq<Time>, k: nat, t: Time)
    requires id in m && m[id].keepAlive
    requires 0 < |ticks| && IsAlive(m[id], ticks[0])
    requires forall i :: 0 < i < |ticks| ==> ticks[i] - ticks[i - 1] <= m[id].expirationSeconds
    requires k + 1 < |ticks| && t <= ticks[k + 1]
    ensures id in RunTicks(m, ticks[..k + 1]) && IsAlive(RunTicks(m, ticks[..k + 1])[id], t)
  {
    AliveAtEveryTick(m, id, ticks, k + 1);
    AliveEarlier(RunTicks(m, ticks[..k + 1])[id], ticks[k + 1], t);
  }

  /**
   * The map part-way through a tick: the records due for renewal whose turn
   * has come (those no longer `pending`) carry the tick time.
   */
  ghost function PartlyTicked(m: Statuses, now: Time, pending: set<ProcessStatus>): Statuses
  {
    map id | id in m :: if DueForRenewal(m[id], now) && m[id] !in pending then m[id].(lastHeartbeat := now) else m[id]
  }

  /** Before any record has had its turn, the map is as it was. */
  lemma PartlyTickedNone(m: Statuses, now: Time, active: set<ProcessStatus>)
    requires forall id :: id in m && IsAlive(m[id], now) ==> m[id] in active
    ensures PartlyTicked(m, now, active) == m
  {
  }

  /** Once every record has had its turn, the map is the ticked map. */
  lemma PartlyTickedAll(m: Statuses, now: Time)
    ensures PartlyTicked(m, now, {}) == Ticked(m, now)
  {
  }

  /** Handling one alive record renews it exactly when it is flagged keep-alive. */
  lemma PartlyTickedStep(m: Statuses, now: Time, pending: set<ProcessStatus>, p: ProcessStatus, expiration: int)
    requires FiledById(m) && p in pending
    requires p.processId in m && m[p.processId] == p && IsAlive(p, now)
    ensures PartlyTicked(m, now, pending - {p}) ==
      if p.keepAlive then Renewed(PartlyTicked(m, now, pending), p.processId, now, expiration)
      else PartlyTicked(m, now, pending)
  {
    var before, after := PartlyTicked(m, now, pending), PartlyTicked(m, now, pending - {p});
    forall id | id in m && id != p.processId ensures after[id] == before[id] {
      assert m[id] != p;
    }
  }

  /** The background worker, driving one registry. */
  class ProcessMonitorWorker {
    const registry: HeartbeatRegistry

    constructor (registry: HeartbeatRegistry)
      ensures this.registry == registry
    {
      this.registry := registry;
    }

    /** One pass of the worker's loop, at clock time `now`. */
    method Tick(now: Time)
      requires registry.Valid()
      modifies registry
      ensures registry.Valid()
      ensures registry.statuses == Ticked(old(registry.statuses), now)
    {
      ghost var m := registry.statuses;
      var active := set p | p in registry.GetStatuses() && IsAlive(p, now);
      var pending := active;
      PartlyTickedNone(m, now, active);
      while pending != {}
        invariant forall q :: q in pending ==> q.processId in m && m[q.processId] == q && IsAlive(q, now)
        invariant registry.Valid()
        invariant registry.statuses == PartlyTicked(m, now, pending)
        decreases pending
      {
        var p :| p in pending;
        PartlyTickedStep(m, now, pending, p, registry.expiration);
        if p.keepAlive {
          registry.RegisterHeartbeat(p.processId, now);
        }
        pending := pending - {p};
      }
      PartlyTickedAll(m, now);
    }

    /** The worker's loop over the given tick times. */
    method Run(ticks: seq<Time>)
      requires registry.Valid()
      modifies registry
      ensures registry.Valid()
      ensures registry.statuses == RunTicks(old(registry.statuses), ticks)
    {
      for i := 0 to |ticks|
        invariant registry.Valid()
        invariant registry.statuses == RunTicks(old(registry.statuses), ticks[..i])
      {
        Tick(ticks[i]);
        assert ticks[..i + 1][..i] == ticks[..i];
      }
      assert ticks[..|ticks|] == ticks;
    }
  }
}
