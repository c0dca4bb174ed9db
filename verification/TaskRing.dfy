/** Tasks in the order they will run: the current one first, then the queue. */
module TaskRing {
  import opened Bytes
  import opened Sequences

  const MAX_TASKS := 32

  // A task record: five words.
  datatype Task = Task(id: u32, ip: u32, sp: u32, code: u32, stack: u32)

  // Where a task that yields will go on.
  datatype Resume = Resume(ip: u32, sp: u32)

  type Ring = r: seq<Task> | |r| > 0 witness [Task(0, 0, 0, 0, 0)]

  function Saved(t: Task, at: Resume): Task {
    t.(ip := at.ip, sp := at.sp)
  }

  function SavedAll(tasks: seq<Task>, at: seq<Resume>): (r: seq<Task>)
    requires |tasks| == |at|
    ensures |r| == |tasks| && forall k | 0 <= k < |r| :: r[k] == Saved(tasks[k], at[k])
  {
    if tasks == [] then [] else [Saved(tasks[0], at[0])] + SavedAll(tasks[1..], at[1..])
  }

  // yield_task
  function Yield(ring: Ring, at: Resume): Ring {
    ring[1..] + [Saved(ring[0], at)]
  }

  function Yields(ring: Ring, at: seq<Resume>): (r: Ring)
    ensures |r| == |ring|
  {
    if at == [] then ring else Yield(Yields(ring, at[..|at| - 1]), at[|at| - 1])
  }

  lemma {:induction false} YieldsSplit(ring: Ring, a: seq<Resume>, b: seq<Resume>)
    ensures Yields(ring, a + b) == Yields(Yields(ring, a), b)
  {
    if b == [] {
      assert a + b == a;
    } else {
      var n := |b| - 1;
      YieldsSplit(ring, a, b[..n]);
      assert (a + b)[..|a + b| - 1] == a + b[..n];
    }
  }

  // Up to one full turn, the tasks that have yielded line up behind the others, each with the place it
  // yielded from.
  lemma PartOfATurn(ring: Ring, at: seq<Resume>)
    requires |at| <= |ring|
    ensures forall k | 0 <= k < |ring| - |at| :: Yields(ring, at)[k] == ring[|at| + k]
    ensures forall k | 0 <= k < |at| ::
              var t := ring[k];
              Yields(ring, at)[|ring| - |at| + k] == Task(t.id, at[k].ip, at[k].sp, t.code, t.stack)
  {
    hide Yields, SavedAll;
    YieldedTasks(ring, at);
    var n, saved := |ring| - |at|, SavedAll(ring[..|at|], at);
    assert |ring[|at|..]| == n;
    forall k | 0 <= k < |at| ensures Yields(ring, at)[n + k] == Saved(ring[k], at[k]) {
      assert Yields(ring, at)[n + k] == saved[k];
    }
  }

  lemma {:induction false} YieldedTasks(ring: Ring, at: seq<Resume>)
    requires |at| <= |ring|
    ensures Yields(ring, at) == ring[|at|..] + SavedAll(ring[..|at|], at)
  {
    if at == [] {
      assert ring[0..] + SavedAll([], []) == ring;
    } else {
      hide Yield, SavedAll, Saved;
      var n := |at| - 1;
      YieldedTasks(ring, at[..n]);
      YieldedNext(ring, n, SavedAll(ring[..n], at[..n]), at[n]);
      SavedMore(ring, at);
      assert at[..n + 1] == at;
    }
  }

  lemma YieldedNext(ring: Ring, n: nat, before: seq<Task>, at: Resume)
    requires n < |ring|
    ensures |ring[n..] + before| > 0
    ensures Yield(ring[n..] + before, at) == ring[n + 1..] + (before + [Saved(ring[n], at)])
  {
  }

  lemma SavedMore(ring: Ring, at: seq<Resume>)
    requires 0 < |at| <= |ring|
    ensures var n := |at| - 1;
            SavedAll(ring[..n + 1], at[..n + 1]) == SavedAll(ring[..n], at[..n]) + [Saved(ring[n], at[n])]
  {
    hide Saved;
  }

  // After as many yields as there are tasks every task is back in its place, about to go on where it
  // yielded.
  lemma FullTurn(ring: Ring, at: seq<Resume>)
    requires |at| == |ring|
    ensures forall k | 0 <= k < |ring| ::
              var t := ring[k]; Yields(ring, at)[k] == Task(t.id, at[k].ip, at[k].sp, t.code, t.stack)
  {
    PartOfATurn(ring, at);
  }

  function Ids(tasks: seq<Task>): (r: seq<u32>)
    ensures |r| == |tasks| && forall k | 0 <= k < |r| :: r[k] == tasks[k].id
  {
    if tasks == [] then [] else Ids(tasks[..|tasks| - 1]) + [tasks[|tasks| - 1].id]
  }

  // The task that runs after the yields of `at`.
  function RunsAfter(ring: Ring, at: seq<Resume>): u32 {
    Yields(ring, at)[0].id
  }

  lemma {:induction false} YieldsKeepTasks(ring: Ring, at: seq<Resume>)
    ensures multiset(Ids(Yields(ring, at))) == multiset(Ids(ring))
  {
    if at != [] {
      var n := |at| - 1;
      var before := Yields(ring, at[..n]);
      YieldsKeepTasks(ring, at[..n]);
      YieldTurnsIds(before, at[n]);
    }
  }

  lemma YieldTurnsIds(ring: Ring, at: Resume)
    ensures multiset(Ids(Yield(ring, at))) == multiset(Ids(ring))
  {
    hide Ids;
    var ids := Ids(ring);
    assert Ids(Yield(ring, at)) == ids[1..] + [ids[0]];
    assert ids == [ids[0]] + ids[1..];
  }

  // In any stretch of as many yields as there are tasks, each task runs exactly once: what runs is, in
  // order, a permutation of the tasks.
  lemma EachRunsOnce(ring: Ring, at: seq<Resume>, from: nat)
    requires from + |ring| <= |at| + 1
    ensures var order := Ids(Yields(ring, at[..from]));
            && multiset(order) == multiset(Ids(ring))
            && forall k | 0 <= k < |ring| :: RunsAfter(ring, at[..from + k]) == order[k]
  {
    YieldsKeepTasks(ring, at[..from]);
    hide Yields, Ids;
    forall k | 0 <= k < |ring| ensures RunsAfter(ring, at[..from + k]) == Ids(Yields(ring, at[..from]))[k] {
      RunsInTurn(ring, at, from, k);
    }
  }

  lemma RunsInTurn(ring: Ring, at: seq<Resume>, from: nat, k: nat)
    requires from + k <= |at| && k < |ring|
    ensures RunsAfter(ring, at[..from + k]) == Yields(ring, at[..from])[k].id
  {
    hide Yields;
    assert at[..from + k] == at[..from] + at[from..from + k];
    YieldsSplit(ring, at[..from], at[from..from + k]);
    YieldedTasks(Yields(ring, at[..from]), at[from..from + k]);
  }

  // ---------- task IDs ----------

  lemma IdFits(bitmap: u32, id: nat)
    requires id < 32 && !Bit(bitmap, id)
    ensures bitmap + Pow2(id) < WORD
  {
    hide Pow2;
    Pow2Of32();
    AddedBitFits(bitmap, id, 32);
  }

  // bse
  function WithId(bitmap: u32, id: nat): (r: u32)
    requires id < 32
    ensures forall j: nat :: Bit(r, j) == (j == id || Bit(bitmap, j))
  {
    if Bit(bitmap, id) then bitmap
    else
      AddedBits(bitmap, id);
      IdFits(bitmap, id);
      bitmap + Pow2(id)
  }

  // bcl
  function WithoutId(bitmap: u32, id: nat): (r: u32)
    requires id < 32
    ensures forall j: nat :: Bit(r, j) == (j != id && Bit(bitmap, j))
  {
    if !Bit(bitmap, id) then bitmap
    else
      RemovedBits(bitmap, id);
      bitmap - Pow2(id)
  }

  // No two tasks have the same ID, and the bitmap has the IDs of the tasks, ID 0 aside: that one is
  // what runs before the first task, and is never marked.
  ghost predicate IdsMatch(ring: seq<Task>, bitmap: u32) {
    && Distinct(Ids(ring))
    && (forall k | 0 <= k < |ring| :: ring[k].id < 32)
    && (forall id: nat | 1 <= id < 32 :: Bit(bitmap, id) <==> id in Ids(ring))
  }

  // The queue has room for all tasks but one, and for that one while it yields.
  lemma TasksFit(ring: seq<Task>, bitmap: u32)
    requires IdsMatch(ring, bitmap)
    ensures |ring| <= MAX_TASKS
    ensures (exists id: nat :: 1 <= id < 32 && !Bit(bitmap, id)) ==> |ring| < MAX_TASKS
  {
    DistinctBelow(Ids(ring), 32);
    if id: nat :| 1 <= id < 32 && !Bit(bitmap, id) {
      var more: seq<nat> := Ids(ring) + [id];
      DistinctBelow(more, 32);
    }
  }

  lemma YieldKeepsIds(ring: Ring, at: Resume, bitmap: u32)
    requires IdsMatch(ring, bitmap)
    ensures IdsMatch(Yield(ring, at), bitmap)
  {
    var ids, now := Ids(ring), Ids(Yield(ring, at));
    hide Ids;
    assert now == ids[1..] + [ids[0]];
    assert ids == [ids[0]] + ids[1..];
    forall id | id in ids ensures id in now {
      assert id in [ids[0]] || id in ids[1..];
    }
  }

  lemma NewTaskKeepsIds(ring: Ring, t: Task, bitmap: u32)
    requires IdsMatch(ring, bitmap) && 1 <= t.id < 32 && !Bit(bitmap, t.id)
    ensures IdsMatch(ring + [t], WithId(bitmap, t.id))
  {
    var ids, now := Ids(ring), Ids(ring + [t]);
    hide Ids;
    assert now == ids + [t.id];
  }

  lemma EndKeepsIds(ring: Ring, bitmap: u32)
    requires IdsMatch(ring, bitmap) && |ring| > 1
    ensures IdsMatch(ring[1..], WithoutId(bitmap, ring[0].id))
    ensures ring[0].id == 0 ==> IdsMatch(ring[1..], bitmap)
  {
    var ids, now := Ids(ring), Ids(ring[1..]);
    hide Ids;
    assert now == ids[1..];
    assert ids == [ids[0]] + now;
    assert ids[0] !in now;
  }
}
