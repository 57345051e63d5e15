/**
 * The due-date groups of the task list (src/utils/groupByDueDate.ts): the
 * pipeline `groupTasksByDueDate` over the keys of `DueGroups`. The current
 * day is a parameter, `today`.
 */
module GroupByDueDate {
  import opened Wrappers
  import opened Calendar
  import opened IsoDate
  import opened Types
  import opened Seqs
  import opened DueGroups

  /** A group of tasks under one key. */
  datatype Group = Group(key: DueGroupKey, tasks: seq<Task>)

  function TaskKey(t: Task, today: Date): DueGroupKey
    requires ValidDate(today)
  {
    GetDueGroupKey(t.dueDate, today)
  }

  /** `tasks.filter((t) => t.completed)`. */
  function CompletedTasks(ts: seq<Task>): (r: seq<Task>)
    ensures IsSubsequence(r, ts)
    ensures forall t :: t in r <==> t in ts && t.completed
  {
    if |ts| == 0 then []
    else
      var init, last := ts[..|ts| - 1], ts[|ts| - 1];
      assert ts == init + [last];
      if last.completed then CompletedTasks(init) + [last] else CompletedTasks(init)
  }

  /** `CompletedTasks` keeps each task that passes as many times as `ts` holds it, and no other. */
  lemma {:induction false} CompletedTasksCounts(ts: seq<Task>)
    ensures forall t :: multiset(CompletedTasks(ts))[t] == if t.completed then multiset(ts)[t] else 0
  {
    if |ts| > 0 {
      var init, last := ts[..|ts| - 1], ts[|ts| - 1];
      assert ts == init + [last];
      assert multiset(ts) == multiset(init) + multiset{last};
      CompletedTasksCounts(init);
    }
  }

  /** `tasks.filter((t) => !t.completed)`. */
  function ActiveTasks(ts: seq<Task>): (r: seq<Task>)
    ensures IsSubsequence(r, ts)
    ensures forall t :: t in r <==> t in ts && !t.completed
  {
    if |ts| == 0 then []
    else
      var init, last := ts[..|ts| - 1], ts[|ts| - 1];
      assert ts == init + [last];
      if !last.completed then ActiveTasks(init) + [last] else ActiveTasks(init)
  }

  /** `ActiveTasks` keeps each task that passes as many times as `ts` holds it, and no other. */
  lemma {:induction false} ActiveTasksCounts(ts: seq<Task>)
    ensures forall t :: multiset(ActiveTasks(ts))[t] == if !t.completed then multiset(ts)[t] else 0
  {
    if |ts| > 0 {
      var init, last := ts[..|ts| - 1], ts[|ts| - 1];
      assert ts == init + [last];
      assert multiset(ts) == multiset(init) + multiset{last};
      ActiveTasksCounts(init);
    }
  }

  /** Completed and incomplete tasks together are all the tasks, each counted once. */
  lemma {:induction false} PartitionSizes(ts: seq<Task>)
    ensures |CompletedTasks(ts)| + |ActiveTasks(ts)| == |ts|
  {
    if |ts| > 0 {
      PartitionSizes(ts[..|ts| - 1]);
    }
  }

  /** The tasks of `ts` whose key is `key`, in their order in `ts`. */
  function Bucket(ts: seq<Task>, key: DueGroupKey, today: Date): (r: seq<Task>)
    requires ValidDate(today)
    ensures IsSubsequence(r, ts)
    ensures forall t :: t in r <==> t in ts && TaskKey(t, today) == key
  {
    if |ts| == 0 then []
    else
      var init, last := ts[..|ts| - 1], ts[|ts| - 1];
      assert ts == init + [last];
      if TaskKey(last, today) == key then Bucket(init, key, today) + [last] else Bucket(init, key, today)
  }

  /** `Bucket` keeps each task that passes as many times as `ts` holds it, and no other. */
  lemma {:induction false} BucketCounts(ts: seq<Task>, key: DueGroupKey, today: Date)
    requires ValidDate(today)
    ensures forall t :: multiset(Bucket(ts, key, today))[t] == if TaskKey(t, today) == key then multiset(ts)[t] else 0
  {
    if |ts| > 0 {
      var init, last := ts[..|ts| - 1], ts[|ts| - 1];
      assert ts == init + [last];
      assert multiset(ts) == multiset(init) + multiset{last};
      BucketCounts(init, key, today);
    }
  }

  lemma BucketSnoc(ts: seq<Task>, t: Task, key: DueGroupKey, today: Date)
    requires ValidDate(today)
    ensures Bucket(ts + [t], key, today) ==
      Bucket(ts, key, today) + (if TaskKey(t, today) == key then [t] else [])
  {
    assert (ts + [t])[..|ts|] == ts;
  }

  /** `groupMap` holds, for each key, the bucket of `prefix`, and no key whose bucket is empty. */
  ghost predicate HoldsBuckets(groupMap: map<DueGroupKey, seq<Task>>, prefix: seq<Task>, today: Date)
    requires ValidDate(today)
  {
    forall k ::
      (k in groupMap <==> |Bucket(prefix, k, today)| > 0) &&
      (k in groupMap ==> groupMap[k] == Bucket(prefix, k, today))
  }

  /** Pushing a task onto the list of its key (creating the list first if needed) keeps `HoldsBuckets`. */
  lemma PushKeepsBuckets(groupMap: map<DueGroupKey, seq<Task>>, prefix: seq<Task>, t: Task, today: Date,
                         pushed: map<DueGroupKey, seq<Task>>, next: seq<Task>)
    requires ValidDate(today) && HoldsBuckets(groupMap, prefix, today)
    requires next == prefix + [t]
    requires var key := TaskKey(t, today);
      pushed == groupMap[key := (if key in groupMap then groupMap[key] else []) + [t]]
    ensures HoldsBuckets(pushed, next, today)
  {
    forall k
      ensures (k in pushed <==> |Bucket(next, k, today)| > 0) &&
        (k in pushed ==> pushed[k] == Bucket(next, k, today))
    {
      BucketSnoc(prefix, t, k, today);
    }
  }

  /** The non-empty buckets of `active` for `keys`, in the order of `keys`. */
  function ActiveGroups(active: seq<Task>, keys: seq<DueGroupKey>, today: Date): seq<Group>
    requires ValidDate(today)
  {
    if |keys| == 0 then []
    else
      var key := keys[|keys| - 1];
      var bucket := Bucket(active, key, today);
      ActiveGroups(active, keys[..|keys| - 1], today) + (if |bucket| > 0 then [Group(key, bucket)] else [])
  }

  lemma ActiveGroupsSnoc(active: seq<Task>, keys: seq<DueGroupKey>, key: DueGroupKey, today: Date)
    requires ValidDate(today)
    ensures ActiveGroups(active, keys + [key], today) ==
      ActiveGroups(active, keys, today) +
      (if |Bucket(active, key, today)| > 0 then [Group(key, Bucket(active, key, today))] else [])
  {
    assert (keys + [key])[..|keys|] == keys;
  }

  /** The completed group, present only when some task is completed. */
  function CompletedGroup(done: seq<Task>): seq<Group> {
    if |done| > 0 then [Group(Completed, done)] else []
  }

  /**
   * What `groupTasksByDueDate(tasks, filter)` returns: under `completed`
   * only the completed group, under `active` no completed group, and never
   * an empty group.
   */
  function GroupsOf(tasks: seq<Task>, filter: FilterType, today: Date): (r: seq<Group>)
    requires ValidDate(today)
    ensures filter == Done ==> forall g :: g in r ==> g.key == Completed
    ensures filter == Active ==> forall g :: g in r ==> g.key != Completed
    ensures forall g :: g in r ==> |g.tasks| > 0
  {
    if filter == Done then CompletedGroup(CompletedTasks(tasks))
    else
      var active := ActiveGroups(ActiveTasks(tasks), ActiveGroupOrder, today);
      ActiveGroupsKeys(ActiveTasks(tasks), ActiveGroupOrder, today);
      ActiveGroupOrderFacts();
      active + (if filter == All then CompletedGroup(CompletedTasks(tasks)) else [])
  }

  /**
   * `groupTasksByDueDate`: the incomplete tasks are pushed one by one into a
   * map from key to list, then the non-empty lists are emitted in
   * `ActiveGroupOrder`, then the completed tasks if the filter is `all`.
   */
  method GroupTasksByDueDate(tasks: seq<Task>, filter: FilterType, today: Date)
    returns (result: seq<Group>)
    requires ValidDate(today)
    ensures result == GroupsOf(tasks, filter, today)
  {
    if filter == Done {
      var done := CompletedTasks(tasks);
      return if |done| > 0 then [Group(Completed, done)] else [];
    }
    var active := ActiveTasks(tasks);
    var completed := if filter == All then CompletedTasks(tasks) else [];

    var groupMap := BuildGroupMap(active, today);
    result := EmitGroups(groupMap, active, today);
    if |completed| > 0 {
      result := result + [Group(Completed, completed)];
    }
    assert result == ActiveGroups(active, ActiveGroupOrder, today) + CompletedGroup(completed);
  }

  /** The first loop of `groupTasksByDueDate`: each incomplete task pushed onto the list of its key. */
  method BuildGroupMap(active: seq<Task>, today: Date) returns (groupMap: map<DueGroupKey, seq<Task>>)
    requires ValidDate(today)
    ensures HoldsBuckets(groupMap, active, today)
  {
    groupMap := map[];
    for i := 0 to |active|
      invariant HoldsBuckets(groupMap, active[..i], today)
    {
      var task := active[i];
      var key := GetDueGroupKey(task.dueDate, today);
      ghost var before := groupMap;
      if key !in groupMap {
        groupMap := groupMap[key := []];
      }
      groupMap := groupMap[key := groupMap[key] + [task]];
      assert active[..i + 1] == active[..i] + [task];
      PushKeepsBuckets(before, active[..i], task, today, groupMap, active[..i + 1]);
    }
    assert active[..|active|] == active;
  }

  /** The second loop of `groupTasksByDueDate`: the non-empty lists of the map, in `ActiveGroupOrder`. */
  method EmitGroups(groupMap: map<DueGroupKey, seq<Task>>, active: seq<Task>, today: Date)
    returns (result: seq<Group>)
    requires ValidDate(today) && HoldsBuckets(groupMap, active, today)
    ensures result == ActiveGroups(active, ActiveGroupOrder, today)
  {
    result := [];
    for j := 0 to |ActiveGroupOrder|
      invariant result == ActiveGroups(active, ActiveGroupOrder[..j], today)
    {
      var key := ActiveGroupOrder[j];
      assert (key in groupMap <==> |Bucket(active, key, today)| > 0) &&
        (key in groupMap ==> groupMap[key] == Bucket(active, key, today));
      if key in groupMap && |groupMap[key]| > 0 {
        result := result + [Group(key, groupMap[key])];
      }
      ActiveGroupsSnoc(active, ActiveGroupOrder[..j], key, today);
      assert ActiveGroupOrder[..j + 1] == ActiveGroupOrder[..j] + [key];
    }
    assert ActiveGroupOrder[..|ActiveGroupOrder|] == ActiveGroupOrder;
  }

  /** Keys listed in strictly increasing rank, hence each at most once. */
  ghost predicate RankOrdered(keys: seq<DueGroupKey>) {
    forall i, j :: 0 <= i < j < |keys| ==> Rank(keys[i]) < Rank(keys[j])
  }

  /** What `ActiveGroups` emits: for each listed key with a non-empty bucket, that bucket. */
  lemma {:induction false} ActiveGroupsContents(active: seq<Task>, keys: seq<DueGroupKey>, today: Date)
    requires ValidDate(today)
    ensures var r := ActiveGroups(active, keys, today);
      (forall g :: g in r ==> g.key in keys && |g.tasks| > 0 && g.tasks == Bucket(active, g.key, today)) &&
      (forall k :: k in keys && |Bucket(active, k, today)| > 0 ==> Group(k, Bucket(active, k, today)) in r)
  {
    if |keys| > 0 {
      var init, key := keys[..|keys| - 1], keys[|keys| - 1];
      assert keys == init + [key];
      ActiveGroupsContents(active, init, today);
    }
  }

  /** Every group `ActiveGroups` emits is non-empty and under one of the listed keys. */
  lemma {:induction false} ActiveGroupsKeys(active: seq<Task>, keys: seq<DueGroupKey>, today: Date)
    requires ValidDate(today)
    ensures var r := ActiveGroups(active, keys, today);
      forall g :: g in r ==> g.key in keys && |g.tasks| > 0
  {
    if |keys| > 0 {
      var init := keys[..|keys| - 1];
      assert keys == init + [keys[|keys| - 1]];
      ActiveGroupsKeys(active, init, today);
    }
  }

  /** `ActiveGroups` keeps the order of the keys it is given. */
  lemma {:induction false} ActiveGroupsRanked(active: seq<Task>, keys: seq<DueGroupKey>, today: Date)
    requires ValidDate(today) && RankOrdered(keys)
    ensures var r := ActiveGroups(active, keys, today);
      forall i, j :: 0 <= i < j < |r| ==> Rank(r[i].key) < Rank(r[j].key)
  {
    if |keys| > 0 {
      var init, key := keys[..|keys| - 1], keys[|keys| - 1];
      assert keys == init + [key];
      assert RankOrdered(init) by {
        forall i, j | 0 <= i < j < |init|
          ensures Rank(init[i]) < Rank(init[j])
        {
          assert init[i] == keys[i] && init[j] == keys[j];
        }
      }
      ActiveGroupsRanked(active, init, today);
      ActiveGroupsKeys(active, init, today);
      var prev := ActiveGroups(active, init, today);
      var bucket := Bucket(active, key, today);
      var r := ActiveGroups(active, keys, today);
      assert r == prev + (if |bucket| > 0 then [Group(key, bucket)] else []);
      forall i, j | 0 <= i < j < |r|
        ensures Rank(r[i].key) < Rank(r[j].key)
      {
        if j >= |prev| {
          assert r[i] == prev[i] && r[j].key == key;
          assert prev[i] in prev;
          var n :| 0 <= n < |init| && init[n] == prev[i].key;
          assert keys[n] == prev[i].key && n < |keys| - 1;
        } else {
          assert r[i] == prev[i] && r[j] == prev[j];
        }
      }
    }
  }

  /** The total number of tasks over a list of groups. */
  function SumSizes(groups: seq<Group>): nat {
    if |groups| == 0 then 0 else SumSizes(groups[..|groups| - 1]) + |groups[|groups| - 1].tasks|
  }

  /** The total size of the buckets of `keys`, empty ones included. */
  function BucketSizes(ts: seq<Task>, keys: seq<DueGroupKey>, today: Date): nat
    requires ValidDate(today)
  {
    if |keys| == 0 then 0
    else BucketSizes(ts, keys[..|keys| - 1], today) + |Bucket(ts, keys[|keys| - 1], today)|
  }

  lemma {:induction false} SumActiveGroups(active: seq<Task>, keys: seq<DueGroupKey>, today: Date)
    requires ValidDate(today)
    ensures SumSizes(ActiveGroups(active, keys, today)) == BucketSizes(active, keys, today)
  {
    if |keys| > 0 {
      var init, key := keys[..|keys| - 1], keys[|keys| - 1];
      SumActiveGroups(active, init, today);
      var prev := ActiveGroups(active, init, today);
      if |Bucket(active, key, today)| > 0 {
        assert (prev + [Group(key, Bucket(active, key, today))])[..|prev|] == prev;
      } else {
        assert prev + [] == prev;
      }
    }
  }

  /** One more task adds one to the bucket of its key and nothing elsewhere. */
  lemma {:induction false} BucketSizesSnoc(ts: seq<Task>, t: Task, keys: seq<DueGroupKey>, today: Date)
    requires ValidDate(today) && RankOrdered(keys)
    ensures BucketSizes(ts + [t], keys, today) ==
      BucketSizes(ts, keys, today) + (if TaskKey(t, today) in keys then 1 else 0)
  {
    if |keys| > 0 {
      var init, key := keys[..|keys| - 1], keys[|keys| - 1];
      assert keys == init + [key];
      BucketSizesSnoc(ts, t, init, today);
      BucketSnoc(ts, t, key, today);
    }
  }

  lemma {:induction false} BucketSizesOfNone(keys: seq<DueGroupKey>, today: Date)
    requires ValidDate(today)
    ensures BucketSizes([], keys, today) == 0
  {
    if |keys| > 0 {
      BucketSizesOfNone(keys[..|keys| - 1], today);
    }
  }

  /** Every task lands in exactly one bucket of `ActiveGroupOrder`. */
  lemma {:induction false} BucketSizesCoverAll(ts: seq<Task>, today: Date)
    requires ValidDate(today)
    ensures BucketSizes(ts, ActiveGroupOrder, today) == |ts|
  {
    ActiveGroupOrderFacts();
    if |ts| == 0 {
      BucketSizesOfNone(ActiveGroupOrder, today);
    } else {
      var init, last := ts[..|ts| - 1], ts[|ts| - 1];
      assert ts == init + [last];
      BucketSizesCoverAll(init, today);
      BucketSizesSnoc(init, last, ActiveGroupOrder, today);
    }
  }

  /** The tasks the filter lets into the list. */
  function Admitted(tasks: seq<Task>, filter: FilterType): seq<Task> {
    match filter
    case All => tasks
    case Active => ActiveTasks(tasks)
    case Done => CompletedTasks(tasks)
  }

  /** With filter `completed`: one `completed` group with the completed tasks in their order, or nothing. */
  lemma GroupsWhenDone(tasks: seq<Task>, today: Date)
    requires ValidDate(today)
    ensures var r := GroupsOf(tasks, Done, today);
      |r| <= 1 &&
      (|r| == 1 <==> exists t :: t in tasks && t.completed) &&
      (|r| == 1 ==> r[0].key == Completed && r[0].tasks == CompletedTasks(tasks))
  {
    SomeCompleted(tasks);
  }

  /** Some task is completed exactly when the completed filter keeps something. */
  lemma SomeCompleted(tasks: seq<Task>)
    ensures |CompletedTasks(tasks)| > 0 <==> exists t :: t in tasks && t.completed
  {
    var done := CompletedTasks(tasks);
    if exists t :: t in tasks && t.completed {
      var t :| t in tasks && t.completed;
      assert t in done;
    }
    if |done| > 0 {
      assert done[0] in done;
    }
  }

  /**
   * Groups come in `ActiveGroupOrder` with `completed` last, no key
   * twice, and none of them empty.
   */
  lemma GroupsOrdered(tasks: seq<Task>, filter: FilterType, today: Date)
    requires ValidDate(today)
    ensures var r := GroupsOf(tasks, filter, today);
      (forall i, j :: 0 <= i < j < |r| ==> Rank(r[i].key) < Rank(r[j].key)) &&
      (forall i, j :: 0 <= i < j < |r| ==> r[i].key != r[j].key) &&
      (forall g :: g in r ==> |g.tasks| > 0)
  {
    if filter != Done {
      ActiveGroupOrderFacts();
      var active := ActiveGroups(ActiveTasks(tasks), ActiveGroupOrder, today);
      ActiveGroupsKeys(ActiveTasks(tasks), ActiveGroupOrder, today);
      ActiveGroupsRanked(ActiveTasks(tasks), ActiveGroupOrder, today);
      RankedThenCompleted(active, if filter == All then CompletedGroup(CompletedTasks(tasks)) else []);
    }
  }

  /** Ranked non-empty groups without `completed`, followed by at most one non-empty `completed` group. */
  lemma RankedThenCompleted(active: seq<Group>, tail: seq<Group>)
    requires forall i, j :: 0 <= i < j < |active| ==> Rank(active[i].key) < Rank(active[j].key)
    requires forall g :: g in active ==> g.key != Completed && |g.tasks| > 0
    requires |tail| <= 1 && forall g :: g in tail ==> g.key == Completed && |g.tasks| > 0
    ensures var r := active + tail;
      (forall i, j :: 0 <= i < j < |r| ==> Rank(r[i].key) < Rank(r[j].key)) &&
      (forall g :: g in r ==> |g.tasks| > 0)
  {
    var r := active + tail;
    forall i, j | 0 <= i < j < |r|
      ensures Rank(r[i].key) < Rank(r[j].key)
    {
      assert r[i] == active[i];
      if j < |active| {
        assert r[j] == active[j];
      } else {
        assert r[j] == tail[0];
        assert active[i] in active;
      }
    }
  }

  /**
   * With filter `all` or `active`, every group other than `completed` holds
   * exactly the incomplete tasks of its key, in input order, and every
   * incomplete task is in the group named by its key.
   */
  lemma GroupsPlaceActiveTasks(tasks: seq<Task>, filter: FilterType, today: Date)
    requires ValidDate(today) && filter != Done
    ensures var r := GroupsOf(tasks, filter, today);
      (forall g :: g in r && g.key != Completed ==> g.tasks == Bucket(ActiveTasks(tasks), g.key, today)) &&
      (forall t :: t in tasks && !t.completed ==>
        exists g :: g in r && g.key == TaskKey(t, today) && t in g.tasks)
  {
    ActiveGroupOrderFacts();
    var act := ActiveTasks(tasks);
    var r := GroupsOf(tasks, filter, today);
    ActiveGroupsContents(act, ActiveGroupOrder, today);
    forall t | t in tasks && !t.completed
      ensures exists g :: g in r && g.key == TaskKey(t, today) && t in g.tasks
    {
      var k := TaskKey(t, today);
      assert t in Bucket(act, k, today);
      assert Group(k, Bucket(act, k, today)) in r;
    }
  }

  /**
   * A `completed` group appears exactly when the filter is not `active` and
   * some task is completed; under `all` it is then the last group.
   */
  lemma GroupsCompletedLast(tasks: seq<Task>, filter: FilterType, today: Date)
    requires ValidDate(today)
    ensures var r := GroupsOf(tasks, filter, today);
      ((exists g :: g in r && g.key == Completed) <==>
        filter != Active && exists t :: t in tasks && t.completed) &&
      (filter == All && (exists t :: t in tasks && t.completed) ==>
        r[|r| - 1] == Group(Completed, CompletedTasks(tasks)))
  {
    var done := CompletedTasks(tasks);
    var r := GroupsOf(tasks, filter, today);
    SomeCompleted(tasks);
    if filter == Done {
      if |done| > 0 {
        assert r[0] in r;
      }
    } else {
      ActiveGroupOrderFacts();
      var groups := ActiveGroups(ActiveTasks(tasks), ActiveGroupOrder, today);
      var tail := if filter == All then CompletedGroup(done) else [];
      ActiveGroupsKeys(ActiveTasks(tasks), ActiveGroupOrder, today);
      assert r == groups + tail;
      if exists g :: g in r && g.key == Completed {
        var g :| g in r && g.key == Completed;
        assert g !in groups;
      }
      if filter == All && |done| > 0 {
        assert tail == [Group(Completed, done)];
        assert r[|r| - 1] == tail[0] && r[|r| - 1] in r;
      }
    }
  }


  lemma {:induction false} SumSizesAppend(a: seq<Group>, b: seq<Group>)
    ensures SumSizes(a + b) == SumSizes(a) + SumSizes(b)
    decreases |b|
  {
    if |b| == 0 {
      assert a + b == a;
    } else {
      var b0 := b[..|b| - 1];
      assert (a + b)[..|a + b| - 1] == a + b0;
      SumSizesAppend(a, b0);
    }
  }

  lemma CompletedGroupSize(done: seq<Task>)
    ensures SumSizes(CompletedGroup(done)) == |done|
  {
    if |done| > 0 {
      assert CompletedGroup(done)[..0] == [];
    }
  }

  /** The group sizes add up to the number of tasks the filter admits: no task is lost or counted twice. */
  lemma GroupsCoverAdmitted(tasks: seq<Task>, filter: FilterType, today: Date)
    requires ValidDate(today)
    ensures SumSizes(GroupsOf(tasks, filter, today)) == |Admitted(tasks, filter)|
  {
    var act, done := ActiveTasks(tasks), CompletedTasks(tasks);
    CompletedGroupSize(done);
    if filter != Done {
      var groups := ActiveGroups(act, ActiveGroupOrder, today);
      SumActiveGroups(act, ActiveGroupOrder, today);
      BucketSizesCoverAll(act, today);
      var tail := if filter == All then CompletedGroup(done) else [];
      SumSizesAppend(groups, tail);
      PartitionSizes(tasks);
    }
  }
}
