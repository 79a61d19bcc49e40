/** `RunnerManager` itself: the servers and configuration it loads when created, and the
    status query that reads and refreshes the module-level status cache. */
module Manager {
  import opened PyStr
  import opened Ansible
  import opened Inventory
  import opened Vault
  import opened Status

  /** The module-level `status_cache`: one map from host to record and probe time, shared
      by every manager. */
  class StatusCache {
    var entries: Cache

    constructor ()
      ensures entries == map[]
    {
      entries := map[];
    }
  }

  class RunnerManager {
    var servers: seq<Server>
    var config: Config
    const cache: StatusCache

    /** `__init__`: the inventory and vault contents are `None` when their files cannot be
        read. */
    constructor (inventory: Option<string>, vault: Option<string>, cache: StatusCache)
      ensures servers == if inventory.None? then [] else ParseServers(Split(inventory.value, '\n'))
      ensures config == if vault.None? then map[] else ReadLines(map[], Split(vault.value, '\n'))
      ensures this.cache == cache
    {
      this.cache := cache;
      var s := LoadServers(inventory);
      var c := LoadConfig(vault);
      servers := s;
      config := c;
    }

    /** `get_server_status(host)` at time `now`: a fresh cache entry answers at once;
        otherwise the three probes run and, unless one of them raises, their record is
        stored under `host` with the time taken before probing. */
    method GetServerStatus(host: string, now: real, exec: Executor)
      returns (result: ServerStatus, issued: seq<string>)
      modifies cache
      ensures Answer(result, cache.entries, issued) == StatusQuery(old(cache.entries), host, now, exec)
    {
      if host in cache.entries {
        var cached := cache.entries[host];
        if now - cached.time < CacheTimeout {
          return cached.result, [];
        }
      }
      issued := [TimerCommand];
      var timer := exec(TimerCommand);
      if timer.Raised? {
        return Degraded(timer.message), issued;
      }
      var timerStatus := if timer.code == 0 then Strip(Clean(timer.stdout)) else "inactive";

      issued := issued + [RunnerListCommand];
      var list := exec(RunnerListCommand);
      if list.Raised? {
        return Degraded(list.message), issued;
      }
      var runnerCount := |RunnerLines(Split(Clean(list.stdout), '\n'))|;

      issued := issued + [LogCommand];
      var log := exec(LogCommand);
      if log.Raised? {
        return Degraded(log.message), issued;
      }
      var lastLog := if log.code == 0 && Strip(Clean(log.stdout)) != "" then Strip(Clean(log.stdout)) else NoLog;

      var online := timerStatus == "active";
      result := ServerStatus(if online then Online else Offline, if online then Active else Inactive,
                             runnerCount, lastLog);
      cache.entries := cache.entries[host := CacheEntry(result, now)];
    }
  }
}
