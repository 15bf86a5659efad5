/**
 * The heartbeat registry (Services/HeartbeatRegistry.cs): a dictionary from
 * process id to process record, with create, renew, list-all, list-alive and
 * remove.
 *
 * The map-level functions `Created`, `Renewed` and `Removed` say what each
 * dictionary operation (`TryAdd`, `AddOrUpdate`, `TryRemove`) does to the
 * whole map; the class `HeartbeatRegistry` performs the same updates step by
 * step on its `statuses` field and is proved against them.
 */
module Registry {
  import opened Status

  type Statuses = map<string, ProcessStatus>

  const LongLivedPrefix: string := "LongLivedProcess_"
  const ShortLivedPrefix: string := "ShortLivedProcess_"

  /** The first four characters of a GUID's text form: lower-case hexadecimal digits. */
  predicate IsGuidFragment(s: string)
  {
    |s| == 4 && forall i :: 0 <= i < |s| ==> s[i] in "0123456789abcdef"
  }

  /** The id prefix that names the process class. */
  function ClassPrefix(keepAlive: bool): string
  {
    if keepAlive then LongLivedPrefix else ShortLivedPrefix
  }

  /** The id `CreateProcess` hands out: class prefix followed by the random fragment. */
  function ProcessIdFor(keepAlive: bool, suffix: string): (id: string)
    ensures |id| == |ClassPrefix(keepAlive)| + |suffix|
    ensures id[..|ClassPrefix(keepAlive)|] == ClassPrefix(keepAlive)
    ensures id[|ClassPrefix(keepAlive)|..] == suffix
  {
    ClassPrefix(keepAlive) + suffix
  }

  /**
   * A generated id is 21 characters long for a long-lived process and 22 for
   * a short-lived one, and ends in four hexadecimal digits.
   */
  lemma ProcessIdShape(keepAlive: bool, suffix: string)
    requires IsGuidFragment(suffix)
    ensures var id := ProcessIdFor(keepAlive, suffix);
      && |id| == (if keepAlive then 21 else 22)
      && forall i :: |id| - 4 <= i < |id| ==> id[i] in "0123456789abcdef"
  {
    var id := ProcessIdFor(keepAlive, suffix);
    var n := |ClassPrefix(keepAlive)|;
    forall i | |id| - 4 <= i < |id| ensures id[i] in "0123456789abcdef" {
      assert id[i] == suffix[i - n];
    }
  }

  /** The first letter of an id tells the two classes apart. */
  lemma ClassLetter(keepAlive: bool, suffix: string)
    ensures ProcessIdFor(keepAlive, suffix)[0] == if keepAlive then 'L' else 'S'
  {
  }

  /** The id determines both the process class and the fragment it was made from. */
  lemma ProcessIdInjective(k1: bool, s1: string, k2: bool, s2: string)
    requires ProcessIdFor(k1, s1) == ProcessIdFor(k2, s2)
    ensures k1 == k2 && s1 == s2
  {
    var id := ProcessIdFor(k1, s1);
    if k1 == k2 {
      var n := |ClassPrefix(k1)|;
      assert s1 == id[n..] == s2;
    } else {
      ClassLetter(k1, s1);
      ClassLetter(k2, s2);
    }
  }

  /** Every record is filed under its own id. */
  predicate FiledById(m: Statuses)
  {
    forall id :: id in m ==> m[id].processId == id
  }

  /** Every record carries the window the registry was configured with. */
  predicate UniformExpiration(m: Statuses, expiration: int)
  {
    forall id :: id in m ==> m[id].expirationSeconds == expiration
  }

  /**
   * `CreateProcess` on the map (`TryAdd`): a fresh id gets one new record,
   * an id already present leaves the map as it was.
   */
  function Created(m: Statuses, id: string, keepAlive: bool, now: Time, expiration: int): (r: Statuses)
    ensures r.Keys == m.Keys + {id}
    ensures forall k :: k in m ==> r[k] == m[k]
    ensures id !in m ==> r[id] == ProcessStatus(id, now, expiration, keepAlive)
  {
    if id in m then m else m[id := ProcessStatus(id, now, expiration, keepAlive)]
  }

  /**
   * `RegisterHeartbeat` on the map (`AddOrUpdate`): a present record gets a
   * new heartbeat and keeps everything else; an unknown id is created as a
   * short-lived record.
   */
  function Renewed(m: Statuses, id: string, now: Time, expiration: int): (r: Statuses)
    ensures r.Keys == m.Keys + {id}
    ensures forall k :: k in m && k != id ==> r[k] == m[k]
    ensures r[id].lastHeartbeat == now
    ensures id in m ==>
      && r[id].processId == m[id].processId
      && r[id].keepAlive == m[id].keepAlive
      && r[id].expirationSeconds == m[id].expirationSeconds
    ensures id !in m ==> r[id] == ProcessStatus(id, now, expiration, false)
  {
    if id in m then m[id := m[id].(lastHeartbeat := now)]
    else m[id := ProcessStatus(id, now, expiration, false)]
  }

  /** `RemoveHeartbeat` on the map (`TryRemove`): the id is gone, nothing else changes. */
  function Removed(m: Statuses, id: string): (r: Statuses)
    ensures r.Keys == m.Keys - {id}
    ensures forall k :: k in r ==> r[k] == m[k]
    ensures id !in m ==> r == m
  {
    m - {id}
  }

  /** A record filed by id can be told apart by its id, so the map holds one record per id. */
  lemma {:induction false} OneRecordPerId(m: Statuses)
    requires FiledById(m)
    ensures |m.Values| == |m.Keys|
    decreases |m|
  {
    if m != map[] {
      var k :| k in m;
      var rest := m - {k};
      OneRecordPerId(rest);
      assert m.Values == rest.Values + {m[k]} by {
        forall v | v in m.Values ensures v in rest.Values + {m[k]} {
          var j :| j in m && m[j] == v;
          if j != k {
            assert rest[j] == v;
          }
        }
        forall v | v in rest.Values ensures v in m.Values {
          var j :| j in rest && rest[j] == v;
          assert m[j] == v;
        }
      }
      assert m[k] !in rest.Values by {
        forall j | j in rest ensures rest[j] != m[k] {
          assert rest[j].processId == j != k;
        }
      }
      assert m.Keys == rest.Keys + {k};
    }
  }

  /** A freshly created record is alive at its creation instant. */
  lemma CreatedIsAlive(m: Statuses, id: string, keepAlive: bool, now: Time, expiration: int)
    requires id !in m && expiration >= 0
    ensures id in Created(m, id, keepAlive, now, expiration)
    ensures IsAlive(Created(m, id, keepAlive, now, expiration)[id], now)
  {
  }

  /** After a renewal the id is present and alive at the renewal instant. */
  lemma RenewedIsAlive(m: Statuses, id: string, now: Time, expiration: int)
    requires UniformExpiration(m, expiration) && expiration >= 0
    ensures id in Renewed(m, id, now, expiration)
    ensures IsAlive(Renewed(m, id, now, expiration)[id], now)
  {
  }

  /** With a clock that does not run backwards, a renewal never moves a heartbeat backwards. */
  lemma RenewalIsMonotone(m: Statuses, id: string, now: Time, expiration: int)
    requires id in m && m[id].lastHeartbeat <= now
    ensures m[id].lastHeartbeat <= Renewed(m, id, now, expiration)[id].lastHeartbeat
  {
  }

  /** Removing twice is removing once. */
  lemma RemoveIsIdempotent(m: Statuses, id: string)
    ensures Removed(Removed(m, id), id) == Removed(m, id)
  {
  }

  /** Once an id is removed, no stored record carries it. */
  lemma RemovedNeverListed(m: Statuses, id: string)
    requires FiledById(m)
    ensures forall p :: p in Removed(m, id).Values ==> p.processId != id
  {
  }

  /** Renewing an unknown id lists exactly one record with that id: short-lived and alive. */
  lemma RenewUnknownListsOne(m: Statuses, id: string, now: Time, expiration: int)
    requires FiledById(m) && id !in m && expiration >= 0
    ensures var r := Renewed(m, id, now, expiration);
      (set p | p in r.Values && p.processId == id) == {ProcessStatus(id, now, expiration, false)}
    ensures IsAlive(ProcessStatus(id, now, expiration, false), now)
  {
  }

  /** The registry operations keep every record filed by id with the configured window. */
  lemma OperationsKeepWellFormed(m: Statuses, id: string, keepAlive: bool, now: Time, expiration: int)
    requires FiledById(m) && UniformExpiration(m, expiration)
    ensures var c := Created(m, id, keepAlive, now, expiration);
      FiledById(c) && UniformExpiration(c, expiration)
    ensures var r := Renewed(m, id, now, expiration);
      FiledById(r) && UniformExpiration(r, expiration)
    ensures var d := Removed(m, id);
      FiledById(d) && UniformExpiration(d, expiration)
  {
  }

  /**
   * The registry: the process dictionary and the expiration window read from
   * configuration when the registry was built.
   */
  class HeartbeatRegistry {
    var statuses: Statuses
    const expiration: int

    /** Every record is filed under its own id and carries the configured window. */
    ghost predicate Valid()
      reads this
    {
      FiledById(statuses) && UniformExpiration(statuses, expiration)
    }

    constructor (expiration: int)
      ensures Valid()
      ensures statuses == map[] && this.expiration == expiration
    {
      statuses := map[];
      this.expiration := expiration;
    }

    /** Creates a process record under a generated id and returns that id. */
    method CreateProcess(keepAlive: bool, suffix: string, now: Time) returns (id: string)
      requires Valid() && IsGuidFragment(suffix)
      modifies this
      ensures Valid()
      ensures id == ProcessIdFor(keepAlive, suffix)
      ensures statuses == Created(old(statuses), id, keepAlive, now, expiration)
    {
      id := ClassPrefix(keepAlive) + suffix;
      if id !in statuses {
        statuses := statuses[id := ProcessStatus(id, now, expiration, keepAlive)];
      }
    }

    /** Renews the heartbeat of `id`, creating a short-lived record if it is unknown. */
    method RegisterHeartbeat(id: string, now: Time)
      requires Valid()
      modifies this
      ensures Valid()
      ensures statuses == Renewed(old(statuses), id, now, expiration)
    {
      if id in statuses {
        var existing := statuses[id];
        statuses := statuses[id := existing.(lastHeartbeat := now)];
      } else {
        statuses := statuses[id := ProcessStatus(id, now, expiration, false)];
      }
    }

    /** Every stored record, expired ones included, one per registered id. */
    function GetStatuses(): (r: set<ProcessStatus>)
      reads this
      requires Valid()
      ensures forall id :: id in statuses ==> statuses[id] in r
      ensures forall p :: p in r ==> p.processId in statuses && statuses[p.processId] == p
      ensures |r| == |statuses|
    {
      OneRecordPerId(statuses);
      statuses.Values
    }

    /** The stored records that are alive at `now`. */
    function GetActiveStatuses(now: Time): (r: set<ProcessStatus>)
      reads this
      requires Valid()
      ensures r <= GetStatuses()
      ensures forall p :: p in GetStatuses() ==> (p in r <==> IsAlive(p, now))
    {
      set p | p in statuses.Values && IsAlive(p, now)
    }

    /** Forgets `id`; a no-op when it is not registered. */
    method RemoveHeartbeat(id: string)
      requires Valid()
      modifies this
      ensures Valid()
      ensures statuses == Removed(old(statuses), id)
    {
      if id in statuses {
        statuses := statuses - {id};
      }
    }
  }
}
