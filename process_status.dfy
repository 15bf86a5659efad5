/**
 * One tracked process (Models/ProcessStatus.cs) and its derived liveness.
 *
 * Time is a whole number of seconds on a single clock; the source reads the
 * wall clock (`DateTime.UtcNow`) inside `IsAlive`, the model takes it as `now`.
 */
module Status {

  /** Seconds on the clock the registry and the monitor share. */
  type Time = int

  /**
   * A process record: its id, when it last sent a heartbeat, the expiration
   * window fixed when it was created, and whether the monitor renews it.
   */
  datatype ProcessStatus = ProcessStatus(
    processId: string,
    lastHeartbeat: Time,
    expirationSeconds: int,
    keepAlive: bool)

  /** The last instant at which the record still counts as alive. */
  function Deadline(p: ProcessStatus): Time
  {
    p.lastHeartbeat + p.expirationSeconds
  }

  /**
   * `IsAlive`: no more than the expiration window has passed since the last
   * heartbeat, that is, the record is alive up to and including its deadline.
   */
  predicate IsAlive(p: ProcessStatus, now: Time)
    ensures IsAlive(p, now) <==> now <= Deadline(p)
  {
    now - p.lastHeartbeat <= p.expirationSeconds
  }

  /** The boundary is inclusive: alive E seconds after the heartbeat, dead one second later. */
  lemma InclusiveBoundary(p: ProcessStatus)
    ensures IsAlive(p, p.lastHeartbeat + p.expirationSeconds)
    ensures !IsAlive(p, p.lastHeartbeat + p.expirationSeconds + 1)
  {
  }

  /** Strictly more than E seconds without a heartbeat and the record is not alive. */
  lemma ExpiredAfterWindow(p: ProcessStatus, now: Time)
    requires now - p.lastHeartbeat > p.expirationSeconds
    ensures !IsAlive(p, now)
  {
  }

  /** At the heartbeat instant a record with a non-negative window is alive. */
  lemma AliveAtHeartbeat(p: ProcessStatus)
    requires p.expirationSeconds >= 0
    ensures IsAlive(p, p.lastHeartbeat)
  {
  }

  /** Liveness is downward closed in time: alive at `t` means alive at every earlier `t'`. */
  lemma AliveEarlier(p: ProcessStatus, t: Time, t': Time)
    requires IsAlive(p, t) && t' <= t
    ensures IsAlive(p, t')
  {
  }

  /** Moving the heartbeat later never turns an alive record dead at the same instant. */
  lemma LaterHeartbeatStaysAlive(p: ProcessStatus, heartbeat: Time, now: Time)
    requires IsAlive(p, now) && p.lastHeartbeat <= heartbeat
    ensures IsAlive(p.(lastHeartbeat := heartbeat), now)
  {
  }

  /** Liveness depends on the clock, the heartbeat and the window only, never on the id or the flag. */
  lemma AliveIgnoresIdAndFlag(p: ProcessStatus, id: string, keepAlive: bool, now: Time)
    ensures IsAlive(p.(processId := id, keepAlive := keepAlive), now) == IsAlive(p, now)
  {
  }
}
