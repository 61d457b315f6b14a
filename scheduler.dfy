/**
 The scheduler configuration: the requirement ledger, the running-task
 registry and the port assignments of one Kibana scheduler, kept in one
 object and updated in place as requirements change, tasks start and stop,
 and offers arrive.
 */
module Scheduler {
  import opened Ledger
  import opened Registry
  import opened Ports

  /**
   The signed gap between the desired and the running number of instances
   of `url`: positive means more instances are needed, negative means some
   should be killed.
   */
  function Delta(req: map<string, int>, run: map<string, seq<TaskId>>, url: string): int
  {
    Required(req, url) - Running(run, url)
  }

  /** No port is held by two tasks. */
  predicate DistinctPorts(used: map<TaskId, nat>)
  {
    forall a, b :: a in used && b in used && a != b ==> used[a] != used[b]
  }

  /**
   Giving a task a port that no task holds keeps the ports distinct, even
   when the task already held another port, which it then gives up.
   */
  lemma AssignKeepsDistinct(used: map<TaskId, nat>, t: TaskId, p: nat)
    requires DistinctPorts(used) && p !in used.Values
    ensures DistinctPorts(used[t := p])
  {
    var updated := used[t := p];
    forall a, b | a in updated && b in updated && a != b
      ensures updated[a] != updated[b]
    {
      if a != t && b != t {
      } else if a == t {
        assert used[b] in used.Values;
      } else {
        assert used[a] in used.Values;
      }
    }
  }

  class SchedulerConfiguration {
    /** ElasticSearch URL -> number of instances that should run. */
    var requiredTasks: map<string, int>
    /** ElasticSearch URL -> ids of the tasks running for it, in registration order. */
    var runningTasks: map<string, seq<TaskId>>
    /** Task id -> the host port assigned to it. */
    var usedPortNumbers: map<TaskId, nat>
    /** The address of the Mesos master. */
    var mesosMasterAddress: string

    /**
     The object invariant: the ledger holds only strictly positive counts,
     and no port is assigned to two tasks.
     */
    ghost predicate Valid()
      reads this
    {
      AllPositive(requiredTasks) && DistinctPorts(usedPortNumbers)
    }

    /** A configuration with no requirement, no running task and no assigned port. */
    constructor ()
      ensures Valid()
      ensures requiredTasks == map[] && runningTasks == map[] && usedPortNumbers == map[]
      ensures mesosMasterAddress == ""
    {
      requiredTasks := map[];
      runningTasks := map[];
      usedPortNumbers := map[];
      mesosMasterAddress := "";
    }

    /**
     Picks the first port of the offer's "ports" ranges that no task holds
     yet, records it for `taskId` and returns it; returns `NoPort` (-1) and
     records nothing when there is none.
     */
    method PickAndRegisterPortNumber(taskId: TaskId, offer: Offer) returns (picked: int)
      modifies this
      ensures picked == PickPort(offer, old(usedPortNumbers).Values)
      ensures usedPortNumbers == if picked == NoPort then old(usedPortNumbers)
                                 else old(usedPortNumbers)[taskId := picked]
      ensures requiredTasks == old(requiredTasks) && runningTasks == old(runningTasks)
      ensures mesosMasterAddress == old(mesosMasterAddress)
      ensures old(Valid()) ==> Valid()
    {
      // The ports in use do not change during the scan, and every candidate
      // scanned so far is in use, so the answer is that of the unscanned rest.
      ghost var used := usedPortNumbers.Values;
      var i := 0;
      while i < |offer|
        invariant i <= |offer|
        invariant usedPortNumbers == old(usedPortNumbers) && requiredTasks == old(requiredTasks)
        invariant runningTasks == old(runningTasks) && mesosMasterAddress == old(mesosMasterAddress)
        invariant FirstUnused(Candidates(offer[i..]), used) == PickPort(offer, used)
      {
        var resource := offer[i];
        ScanResource(offer, i, used);
        if resource.name == PortsName {
          var port := FreePortInRanges(resource.ranges);
          if port != NoPort {
            if Valid() {
              AssignKeepsDistinct(usedPortNumbers, taskId, port);
            }
            usedPortNumbers := usedPortNumbers[taskId := port];
            return port;
          }
        }
        i := i + 1;
      }
      assert offer[i..] == [];
      return NoPort;
    }

    /**
     The first port of `rs`, range by range, that no task holds, or `NoPort`
     when every port of every range is held.
     */
    method FreePortInRanges(rs: seq<PortRange>) returns (free: int)
      ensures free == FirstUnused(RangesPorts(rs), usedPortNumbers.Values)
      ensures free == NoPort || free !in usedPortNumbers.Values
    {
      assert rs[0..] == rs;
      var j := 0;
      while j < |rs|
        invariant j <= |rs|
        invariant FirstUnused(RangesPorts(rs[j..]), usedPortNumbers.Values) ==
          FirstUnused(RangesPorts(rs), usedPortNumbers.Values)
      {
        ScanRange(rs, j, usedPortNumbers.Values);
        var port := FreePortInRange(rs[j]);
        if port != NoPort {
          return port;
        }
        j := j + 1;
      }
      assert rs[j..] == [];
      return NoPort;
    }

    /**
     The first port of `r`, in ascending order, that no task holds, or
     `NoPort` when every port of `r` is held.
     */
    method FreePortInRange(r: PortRange) returns (free: int)
      ensures free == FirstUnused(RangePorts(r), usedPortNumbers.Values)
      ensures free == NoPort || (r.begin <= free < r.end && free !in usedPortNumbers.Values)
    {
      var port: nat := r.begin;
      while port < r.end
        invariant r.begin <= port
        invariant FirstUnused(RangePorts(PortRange(port, r.end)), usedPortNumbers.Values) ==
          FirstUnused(RangePorts(r), usedPortNumbers.Values)
      {
        ScanPort(port, r.end, usedPortNumbers.Values);
        if port !in usedPortNumbers.Values {
          return port;
        }
        port := port + 1;
      }
      return NoPort;
    }

    /**
     Moves the desired count of `url` by `amount` (which may be negative),
     dropping the entry once the count is no longer positive.
     */
    method RegisterRequirement(url: string, amount: int)
      modifies this
      ensures requiredTasks == Register(old(requiredTasks), url, amount)
      ensures runningTasks == old(runningTasks) && usedPortNumbers == old(usedPortNumbers)
      ensures mesosMasterAddress == old(mesosMasterAddress)
      ensures old(Valid()) ==> Valid()
    {
      if url in requiredTasks {
        var newAmount := amount + requiredTasks[url];
        if newAmount <= 0 {
          requiredTasks := requiredTasks - {url};
        } else {
          requiredTasks := requiredTasks[url := newAmount];
        }
      } else if amount > 0 {
        requiredTasks := requiredTasks[url := amount];
      }
    }

    /** The delta of every URL that has a requirement or a task list. */
    method GetRequirementDeltaMap() returns (deltas: map<string, int>)
      ensures deltas.Keys == requiredTasks.Keys + runningTasks.Keys
      ensures forall u :: u in deltas ==> deltas[u] == Delta(requiredTasks, runningTasks, u)
    {
      var urls := requiredTasks.Keys + runningTasks.Keys;
      deltas := map[];
      var todo := urls;
      while todo != {}
        invariant todo <= urls
        invariant deltas.Keys == urls - todo
        invariant forall u :: u in deltas ==> deltas[u] == Delta(requiredTasks, runningTasks, u)
        decreases todo
      {
        var url :| url in todo;
        var delta := GetRequirementDelta(url);
        deltas := deltas[url := delta];
        todo := todo - {url};
      }
    }

    /** The delta between the required and the running number of instances of `url`. */
    method GetRequirementDelta(url: string) returns (delta: int)
      ensures delta == Delta(requiredTasks, runningTasks, url)
    {
      if url in requiredTasks {
        var requiredAmount := requiredTasks[url];
        if url in runningTasks {
          var actualAmount := |runningTasks[url]|;
          return requiredAmount - actualAmount;
        }
        return requiredAmount;
      }
      if url in runningTasks {
        var actualAmount := |runningTasks[url]|;
        return -actualAmount;
      }
      return 0;
    }

    /**
     Takes the Mesos master address from the first argument and requires
     one instance for each ElasticSearch URL that follows it.
     */
    method ParseLaunchArguments(args: seq<string>)
      requires |args| >= 1
      modifies this
      ensures mesosMasterAddress == args[0]
      ensures requiredTasks == RegisterEach(old(requiredTasks), args[1..])
      ensures old(Valid()) ==> Valid()
      ensures old(Valid()) ==>
        forall u :: Required(requiredTasks, u) == Required(old(requiredTasks), u) + multiset(args[1..])[u]
      ensures runningTasks == old(runningTasks) && usedPortNumbers == old(usedPortNumbers)
    {
      mesosMasterAddress := args[0];
      var i := 1;
      while i < |args|
        invariant 1 <= i <= |args|
        invariant requiredTasks == RegisterEach(old(requiredTasks), args[1..i])
        invariant mesosMasterAddress == args[0]
        invariant runningTasks == old(runningTasks) && usedPortNumbers == old(usedPortNumbers)
      {
        var elasticSearchUrl := args[i];
        RegisterRequirement(elasticSearchUrl, 1);
        RegisterEachStep(old(requiredTasks), args, i);
        i := i + 1;
      }
      assert args[1..i] == args[1..];
      if old(Valid()) {
        RegisterEachCounts(old(requiredTasks), args[1..]);
      }
    }

    /** Adds `taskId` at the end of the task list of `url`, creating the list if needed. */
    method RegisterTask(url: string, taskId: TaskId)
      modifies this
      ensures runningTasks == old(runningTasks)[url := Tasks(old(runningTasks), url) + [taskId]]
      ensures requiredTasks == old(requiredTasks) && usedPortNumbers == old(usedPortNumbers)
      ensures mesosMasterAddress == old(mesosMasterAddress)
      ensures old(Valid()) ==> Valid()
    {
      if url in runningTasks {
        runningTasks := runningTasks[url := runningTasks[url] + [taskId]];
      } else {
        assert Tasks(runningTasks, url) + [taskId] == [taskId];
        runningTasks := runningTasks[url := [taskId]];
      }
    }

    /**
     Removes `taskId` from the first task list found to contain it, together
     with its port assignment. The lists are visited in no particular order,
     so when several lists contain the id, any one of them may lose it. When
     no list contains it, nothing changes. No list is ever dropped, even
     when it becomes empty.
     */
    method UnregisterTask(taskId: TaskId)
      modifies this
      ensures runningTasks.Keys == old(runningTasks).Keys
      ensures requiredTasks == old(requiredTasks) && mesosMasterAddress == old(mesosMasterAddress)
      ensures (forall u :: u in old(runningTasks) ==> taskId !in old(runningTasks)[u]) ==>
        runningTasks == old(runningTasks) && usedPortNumbers == old(usedPortNumbers)
      ensures (exists u :: u in old(runningTasks) && taskId in old(runningTasks)[u]) ==>
        usedPortNumbers == old(usedPortNumbers) - {taskId} &&
        exists u :: u in old(runningTasks) && taskId in old(runningTasks)[u] &&
          runningTasks == old(runningTasks)[u := RemoveFirst(old(runningTasks)[u], taskId)]
      ensures old(Valid()) ==> Valid()
    {
      var urls := runningTasks.Keys;
      while urls != {}
        invariant urls <= runningTasks.Keys
        invariant unchanged(this)
        invariant forall u :: u in runningTasks && u !in urls ==> taskId !in runningTasks[u]
        decreases urls
      {
        var url :| url in urls;
        var tasks := runningTasks[url];
        if taskId in tasks {
          runningTasks := runningTasks[url := RemoveFirst(tasks, taskId)];
          usedPortNumbers := usedPortNumbers - {taskId};
          return;
        }
        urls := urls - {url};
      }
    }
  }

  /** One more launch argument registers one more instance of that URL. */
  lemma RegisterEachStep(req: map<string, int>, args: seq<string>, i: nat)
    requires 1 <= i < |args|
    ensures RegisterEach(req, args[1..i + 1]) == Register(RegisterEach(req, args[1..i]), args[i], 1)
  {
    assert args[1..i + 1][..i - 1] == args[1..i];
  }

  /** Registering a task for `url` lowers the delta of `url` by one and no other. */
  lemma RegisterTaskDelta(req: map<string, int>, run: map<string, seq<TaskId>>, url: string, t: TaskId)
    ensures var run' := run[url := Tasks(run, url) + [t]];
      forall u :: Delta(req, run', u) == Delta(req, run, u) - (if u == url then 1 else 0)
  {
  }

  /** Unregistering a task of `url` raises the delta of `url` by one and no other. */
  lemma UnregisterTaskDelta(req: map<string, int>, run: map<string, seq<TaskId>>, url: string, t: TaskId)
    requires url in run && t in run[url]
    ensures var run' := run[url := RemoveFirst(run[url], t)];
      forall u :: Delta(req, run', u) == Delta(req, run, u) + (if u == url then 1 else 0)
  {
  }

  /**
   A requirement change moves the delta of its URL by `amount` unless the
   count drops to zero, and leaves every other delta alone.
   */
  lemma RegisterRequirementDelta(req: map<string, int>, run: map<string, seq<TaskId>>, url: string, amount: int)
    ensures Delta(Register(req, url, amount), run, url) ==
      if Required(req, url) + amount > 0 then Delta(req, run, url) + amount else -(Running(run, url) as int)
    ensures forall u :: u != url ==> Delta(Register(req, url, amount), run, u) == Delta(req, run, u)
  {
  }
}
