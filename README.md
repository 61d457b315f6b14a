# Kibana Mesos scheduler: reconciliation and port allocation

This project models `SchedulerConfiguration`, the in-memory state of the
Kibana scheduler for Apache Mesos, in Dafny and proves properties of it.
The class keeps three tables:

- `requiredTasks` maps each ElasticSearch URL to the number of Kibana instances that should serve it.
- `runningTasks` maps each URL to the ids of the tasks running for it, in registration order.
- `usedPortNumbers` maps each task id to the host port assigned to it.

The scheduler reconciles the tables by computing, for every URL, the delta
between the required and the running instance count. It also picks host
ports for new tasks out of the "ports" ranges of Mesos resource offers.

Layout:

- `ledger.dfy` (module `Ledger`): the requirement ledger as values.
  - `Register` is the reference definition of a requirement change.
  - `RegisterEach` is the effect of the launch arguments.
  - The invariant that every count is strictly positive is stated here.
- `registry.dfy` (module `Registry`):
  - task ids;
  - the per-URL task lists;
  - `RemoveFirst`, which removes the first occurrence of an id, as `List.remove(Object)` does.
- `ports.dfy` (module `Ports`):
  - offers, resources and port ranges;
  - the candidate ports of an offer in scan order (resources, then ranges, then ascending ports, end exclusive);
  - `PickPort`, the "first candidate not in use" specification of the allocator, with its properties.
- `scheduler.dfy` (module `Scheduler`): the class `SchedulerConfiguration`.
  - Its fields are the three tables and the Mesos master address.
  - Its methods update them in place, keep the branches and loops of the Java code, and are proved against the functions above.
  - Lemmas relate requirement changes and task (un)registration to the delta.

## Model

| member | source | states |
|---|---|---|
| Ledger.Register | src/main/java/org/apache/mesos/kibana/scheduler/SchedulerConfiguration.java:113-126 | The new count of the URL is the old count (0 when absent) plus the amount when that sum is positive; otherwise the entry is absent. Every other URL keeps its count and its presence. A ledger of strictly positive counts stays strictly positive. |
| Ledger.RegisterEachCounts | src/main/java/org/apache/mesos/kibana/scheduler/SchedulerConfiguration.java:176-179 | Registering one instance for each listed URL, in order, raises every URL's count by the number of times it is listed, and the ledger stays strictly positive. |
| Registry.IndexOf | src/main/java/org/apache/mesos/kibana/scheduler/SchedulerConfiguration.java:206-207 | The index is within the list exactly when the id occurs in it. The id is at that index and does not occur before it. |
| Registry.RemoveFirst | src/main/java/org/apache/mesos/kibana/scheduler/SchedulerConfiguration.java:207 | The result's multiset is the list's multiset with one copy of the id taken out. The length drops by one exactly when the id occurs. A list without the id is returned unchanged. |
| Registry.RemoveFirstInverse | src/main/java/org/apache/mesos/kibana/scheduler/SchedulerConfiguration.java:206-207 | Putting the id back at the position of its first occurrence restores the original list. So the removal takes out exactly that copy and keeps every other id in its registration order. |
| Ports.RangePortsAt | src/main/java/org/apache/mesos/kibana/scheduler/SchedulerConfiguration.java:74-76 | A range with begin < end yields end - begin ports, the k-th being begin + k. An inverted or empty range yields none. |
| Ports.RangesPortsMembers | src/main/java/org/apache/mesos/kibana/scheduler/SchedulerConfiguration.java:72-76 | A port is scanned in a list of ranges exactly when some range satisfies begin <= port < end. |
| Ports.CandidatesOffered | src/main/java/org/apache/mesos/kibana/scheduler/SchedulerConfiguration.java:69-76 | The candidate ports of an offer are exactly the ports inside some range of some resource named "ports"; other resources contribute nothing. |
| Ports.FirstFree | src/main/java/org/apache/mesos/kibana/scheduler/SchedulerConfiguration.java:76-77 | Every candidate before the returned position is in use, and the candidate at it, if any, is not. |
| Ports.FirstFreeAt | src/main/java/org/apache/mesos/kibana/scheduler/SchedulerConfiguration.java:76-77 | A free candidate preceded only by used candidates is the first free position. |
| Ports.FirstUnusedSpec | src/main/java/org/apache/mesos/kibana/scheduler/SchedulerConfiguration.java:76-84 | The first unused candidate is a candidate not in use, preceded only by candidates in use. There is none (-1) exactly when every candidate is in use. |
| Ports.FirstUnusedAppend | src/main/java/org/apache/mesos/kibana/scheduler/SchedulerConfiguration.java:69-83 | Scanning two candidate lists in sequence: the answer is the first list's, unless that is -1, in which case it is the second list's. |
| Ports.ScanPort | src/main/java/org/apache/mesos/kibana/scheduler/SchedulerConfiguration.java:76-80 | From a port below the end, the scan answers that port when it is not in use, and otherwise the answer from the next port on. |
| Ports.ScanRange | src/main/java/org/apache/mesos/kibana/scheduler/SchedulerConfiguration.java:73-82 | From range j on, the scan answers range j's first free port, or the answer of the later ranges when range j has none. |
| Ports.ScanResource | src/main/java/org/apache/mesos/kibana/scheduler/SchedulerConfiguration.java:69-83 | From resource i on, the scan answers resource i's first free port, or the answer of the later resources when resource i has none. |
| Ports.PickPortSpec | src/main/java/org/apache/mesos/kibana/scheduler/SchedulerConfiguration.java:68-85 | A picked port lies in a range of a "ports" resource and is not in use, and every candidate scanned before it is in use. -1 is answered exactly when every offered port is in use. This covers an offer without "ports" and ranges with begin >= end. |
| Ports.ExampleCandidates | src/main/java/org/apache/mesos/kibana/scheduler/SchedulerConfiguration.java:69-76 | An offer with a "cpus" resource and the port ranges [0,4) and [11,15) yields the candidates 0,1,2,3,11,12,13,14. The end of each range is excluded and "cpus" is skipped. |
| Ports.ScanOrderExample | src/main/java/org/apache/mesos/kibana/scheduler/SchedulerConfiguration.java:69-82 | Successive picks on that offer give 0, 1, 2, 3 and then 11, the first port of the second range. |
| Scheduler.SchedulerConfiguration.constructor | src/main/java/org/apache/mesos/kibana/scheduler/SchedulerConfiguration.java:20-23 | All three tables start empty, which satisfies the object invariant: every required count is positive and no port is held by two tasks. |
| Scheduler.SchedulerConfiguration.PickAndRegisterPortNumber | src/main/java/org/apache/mesos/kibana/scheduler/SchedulerConfiguration.java:68-85 | The result is PickPort of the offer against the ports in use before the call. On success the task is mapped to that port; on -1 the port table is unchanged. The other tables are untouched. The object invariant is preserved: no port is held by two tasks. |
| Scheduler.SchedulerConfiguration.FreePortInRanges | src/main/java/org/apache/mesos/kibana/scheduler/SchedulerConfiguration.java:72-82 | The ranges loop answers the first port, range by range, that is not in use, or -1; a port it answers is not in use. No state changes. |
| Scheduler.SchedulerConfiguration.FreePortInRange | src/main/java/org/apache/mesos/kibana/scheduler/SchedulerConfiguration.java:74-81 | The port loop answers the first port of the range that is not in use, or -1. A port it answers lies in [begin, end). No state changes. |
| Scheduler.SchedulerConfiguration.RegisterRequirement | src/main/java/org/apache/mesos/kibana/scheduler/SchedulerConfiguration.java:113-127 | The ledger becomes Register(old ledger, url, amount), and the invariant that every count is positive is preserved. The other fields are unchanged. |
| Scheduler.SchedulerConfiguration.GetRequirementDeltaMap | src/main/java/org/apache/mesos/kibana/scheduler/SchedulerConfiguration.java:134-144 | The keys are exactly the union of the two tables' keys, and each value is required minus running (each 0 when absent). No state changes. |
| Scheduler.SchedulerConfiguration.GetRequirementDelta | src/main/java/org/apache/mesos/kibana/scheduler/SchedulerConfiguration.java:152-167 | The result is required minus running for the URL, each counting 0 when absent. No state changes. |
| Scheduler.SchedulerConfiguration.ParseLaunchArguments | src/main/java/org/apache/mesos/kibana/scheduler/SchedulerConfiguration.java:174-180 | The master address becomes the first argument. Each later argument adds one required instance of that URL, so each count rises by the number of times the URL is listed. The positive-ledger invariant is kept and the other tables are unchanged. |
| Scheduler.RegisterEachStep | src/main/java/org/apache/mesos/kibana/scheduler/SchedulerConfiguration.java:176-178 | One more launch argument applies one more +1 registration to the ledger built from the earlier arguments. |
| Scheduler.SchedulerConfiguration.RegisterTask | src/main/java/org/apache/mesos/kibana/scheduler/SchedulerConfiguration.java:188-197 | The id is appended to the end of the URL's list, or becomes the singleton list when the URL had none. Every other list and both other tables are unchanged, so the object invariant is preserved. |
| Scheduler.SchedulerConfiguration.UnregisterTask | src/main/java/org/apache/mesos/kibana/scheduler/SchedulerConfiguration.java:204-213 | When some list holds the id, one such list loses its first occurrence and the id's port assignment is removed. When no list holds it, nothing changes. No URL key is ever dropped, even when its list becomes empty. The object invariant is preserved. |
| Scheduler.AssignKeepsDistinct | src/main/java/org/apache/mesos/kibana/scheduler/SchedulerConfiguration.java:77-78 | Giving a task a port that no task holds keeps every port held by at most one task. This holds even when the task already held a port, which the `put` then replaces. |
| Scheduler.RegisterTaskDelta | src/main/java/org/apache/mesos/kibana/scheduler/SchedulerConfiguration.java:188-195 | Registering a task lowers the delta of its URL by one and leaves every other delta unchanged. |
| Scheduler.UnregisterTaskDelta | src/main/java/org/apache/mesos/kibana/scheduler/SchedulerConfiguration.java:205-208 | Removing a task from a URL's list raises that URL's delta by one and leaves every other delta unchanged. |
| Scheduler.RegisterRequirementDelta | src/main/java/org/apache/mesos/kibana/scheduler/SchedulerConfiguration.java:113-126 | A requirement change moves its URL's delta by the amount while the count stays positive; otherwise the delta becomes minus the running count. Every other delta is unchanged. |

## Left out

- Logging through SLF4J is I/O only and is not modelled.
- The static constants and getters (`getDockerImageName`, `getRequiredCpu`, `getRequiredMem`, `getRequiredPortCount`) are not modelled. They are trivial, and three of them are floating-point values.
- `getMesosMasterAddress` and `setMesosMasterAddress` are not modelled as separate members. `ParseLaunchArguments` assigns the field directly, which is all the setter does.
- The address starts as the empty string here. Java starts it as `null`.
- `ParseLaunchArguments` requires at least one argument. The Java code throws on an empty array when it reads `args[0]`, and that exception path is not modelled.
- The Mesos protobuf types are abstracted:
  - a task id is a string wrapper compared by value;
  - an offer is a list of named resources;
  - a resource keeps only its name and ranges;
  - range bounds are non-negative integers, since Mesos carries them as unsigned 64-bit values.
- Ports.PortRange: does not model Java reading those unsigned bounds as signed `long` (`getBegin()`/`getEnd()`). A bound of 2^63 or more turns negative there, so Java could scan negative ports and even record and return -1 as a real port. The natural-number bounds here exclude all of that.
- Scalar and set values of resources are left out. The port scan never reads them.
- Scheduler.SchedulerConfiguration.RegisterRequirement: does not model 32-bit `int` wrap-around of `amount + requiredTasks.get(url)`. Counts are unbounded integers.
- Scheduler.SchedulerConfiguration.GetRequirementDelta: does not model 32-bit wrap-around of the subtraction either.
- Iteration order of `HashMap` and `HashSet` is modelled as an arbitrary choice. `GetRequirementDeltaMap` and `UnregisterTask` pick the next key nondeterministically.
- Scheduler.SchedulerConfiguration.UnregisterTask: when several lists hold the same id, the contract says only that one of them loses it, not which one.
- The mutable task lists are values here. `runningTasks` maps each URL to a sequence that the methods replace, so aliasing of a Java `List` held elsewhere is not captured.
- The port-count helper exercised by `ResourcesTest` is not part of this model. That test counts range ends as inclusive, while the allocator scans `port < end`. The model follows the allocator's exclusive end.
