/**
 The running-task registry: for each ElasticSearch URL, the ids of the tasks
 launched for it, in registration order.
 */
module Registry {

  /** A task id minted by the cluster manager; the scheduler only compares ids. */
  datatype TaskId = TaskId(value: string)

  /** The tasks running for `url`, empty when the registry has no entry. */
  function Tasks(run: map<string, seq<TaskId>>, url: string): seq<TaskId>
  {
    if url in run then run[url] else []
  }

  /** The number of tasks running for `url`. */
  function Running(run: map<string, seq<TaskId>>, url: string): nat
  {
    |Tasks(run, url)|
  }

  /** The position of the first occurrence of `t` in `s`, or `|s|` when there is none. */
  function IndexOf(s: seq<TaskId>, t: TaskId): (i: nat)
    ensures i <= |s|
    ensures i < |s| <==> t in s
    ensures i < |s| ==> s[i] == t
    ensures t !in s[..i]
  {
    if s == [] then 0
    else if s[0] == t then 0
    else
      var k := IndexOf(s[1..], t);
      assert s[..k + 1] == [s[0]] + s[1..][..k];
      k + 1
  }

  /** Cutting element `i` out of `s` takes exactly that element out of its multiset. */
  lemma SplitAt(s: seq<TaskId>, i: nat)
    requires i < |s|
    ensures multiset(s[..i] + s[i + 1..]) == multiset(s) - multiset{s[i]}
  {
    assert s == s[..i] + [s[i]] + s[i + 1..];
  }

  /** The list with the first occurrence of `t` removed, as `List.remove(Object)` does. */
  function RemoveFirst(s: seq<TaskId>, t: TaskId): (r: seq<TaskId>)
    ensures multiset(r) == multiset(s) - multiset{t}
    ensures |r| == if t in s then |s| - 1 else |s|
    ensures t !in s ==> r == s
  {
    var i := IndexOf(s, t);
    if i < |s| then
      SplitAt(s, i);
      s[..i] + s[i + 1..]
    else s
  }

  /** Cutting out position `i` and putting its element back in the gap restores `s`. */
  lemma CutAndReinsert(s: seq<TaskId>, i: nat)
    requires i < |s|
    ensures var cut := s[..i] + s[i + 1..];
      i <= |cut| && cut[..i] + [s[i]] + cut[i..] == s
  {
    var cut := s[..i] + s[i + 1..];
    assert cut[..i] == s[..i];
    assert cut[i..] == s[i + 1..];
  }

  /**
   Removal is undone by putting the id back where its first occurrence was:
   the other ids keep their registration order and only that one copy goes.
   */
  lemma RemoveFirstInverse(s: seq<TaskId>, t: TaskId)
    requires t in s
    ensures var i := IndexOf(s, t);
      i <= |RemoveFirst(s, t)| && RemoveFirst(s, t)[..i] + [t] + RemoveFirst(s, t)[i..] == s
  {
    CutAndReinsert(s, IndexOf(s, t));
  }
}
