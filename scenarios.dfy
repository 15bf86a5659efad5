/**
 * Two client runs of the registry and the monitor, proved from the
 * contracts alone (in the manner of a test harness).
 */
module Scenarios {
  import opened Status
  import opened Registry
  import opened Monitor

  /**
   * A short-lived process with a two-second window, left alone for three
   * seconds: no longer active, still listed, and gone once removed.
   */
  method ShortLivedExpires(suffix: string)
    requires IsGuidFragment(suffix)
  {
    var registry := new HeartbeatRegistry(2);
    var id := registry.CreateProcess(false, suffix, 0);
    var p := registry.statuses[id];
    assert p == ProcessStatus(id, 0, 2, false);
    assert p in registry.GetStatuses();
    assert p !in registry.GetActiveStatuses(3);
    registry.RemoveHeartbeat(id);
    assert id !in registry.statuses;
    RemovedNeverListed(map[id := p], id);
    assert forall q :: q in registry.GetStatuses() ==> q.processId != id;
  }

  /**
   * A long-lived process with a two-second window and the monitor ticking
   * every second for five seconds: still alive, its heartbeat at the last tick.
   */
  method LongLivedKeptAlive(suffix: string)
    requires IsGuidFragment(suffix)
  {
    var registry := new HeartbeatRegistry(2);
    var id := registry.CreateProcess(true, suffix, 0);
    var worker := new ProcessMonitorWorker(registry);
    ghost var m := registry.statuses;
    var ticks := [1, 2, 3, 4, 5];
    worker.Run(ticks);
    KeepAliveNeverExpires(m, id, ticks);
    assert registry.statuses[id].lastHeartbeat == 5;
    assert registry.statuses[id] in registry.GetActiveStatuses(5);
  }
}
