/** The cooperative scheduler: a current task record, a queue of records in one array that is shifted
    down at every switch, and a bitmap of task IDs. */
module Scheduler {
  import opened Bytes
  import opened Sequences
  import opened HeapBlocks
  import opened Heap
  import opened TaskRing

  const TASK_WORDS := 5       // TASK_SIZE, 20 bytes
  const QUEUE_WORDS := 160    // 640 bytes

  function TaskAt(words: seq<u32>, at: nat): Task
    requires at + TASK_WORDS <= |words|
  {
    Task(words[at], words[at + 1], words[at + 2], words[at + 3], words[at + 4])
  }

  // The first n records.
  function Records(words: seq<u32>, n: nat): (r: seq<Task>)
    requires TASK_WORDS * n <= |words|
    ensures |r| == n && forall i | 0 <= i < n :: r[i] == TaskAt(words, TASK_WORDS * i)
  {
    if n == 0 then [] else Records(words, n - 1) + [TaskAt(words, TASK_WORDS * (n - 1))]
  }

  lemma SameRecord(words: seq<u32>, words': seq<u32>, at: nat)
    requires at + TASK_WORDS <= |words| == |words'| && forall k | at <= k < at + TASK_WORDS :: words'[k] == words[k]
    ensures TaskAt(words', at) == TaskAt(words, at)
  {
  }

  lemma RecordsMore(was: seq<u32>, now: seq<u32>, n: nat)
    requires TASK_WORDS * (n + 1) <= |was| == |now| && forall k | 0 <= k < TASK_WORDS * n :: now[k] == was[k]
    ensures Records(now, n + 1) == Records(was, n) + [TaskAt(now, TASK_WORDS * n)]
  {
    hide TaskAt;
    forall i | 0 <= i < n ensures TaskAt(now, TASK_WORDS * i) == TaskAt(was, TASK_WORDS * i) {
      SameRecord(now, was, TASK_WORDS * i);
    }
    assert Records(now, n) == Records(was, n);
  }

  datatype Switched = Starved | RunsAt(at: Resume)

  class Tasks {
    var idBitmap: u32
    const current: array<u32>
    const queue: array<u32>
    var queueEnd: nat           // task_queue_ptr, in words from task_queue_bottom

    ghost predicate Shaped()
      reads `queueEnd
    {
      && current.Length == TASK_WORDS && queue.Length == QUEUE_WORDS && current != queue
      && queueEnd % TASK_WORDS == 0 && queueEnd <= QUEUE_WORDS
    }

    // The current task, then the queue.
    ghost function Order(): (r: Ring)
      requires Shaped()
      reads `queueEnd, current, queue
      ensures |r| == 1 + queueEnd / TASK_WORDS && r[0] == TaskAt(current[..], 0)
    {
      [TaskAt(current[..], 0)] + Records(queue[..], queueEnd / TASK_WORDS)
    }

    ghost predicate Valid()
      reads `idBitmap, `queueEnd, current, queue
    {
      Shaped() && IdsMatch(Order(), idBitmap)
    }

    constructor ()
      ensures Valid() && Order() == [Task(0, 0, 0, 0, 0)] && idBitmap == 0
      ensures fresh(current) && fresh(queue)
    {
      current := new u32[TASK_WORDS](_ => 0);
      queue := new u32[QUEUE_WORDS](_ => 0);
      idBitmap, queueEnd := 0, 0;
      new;
      forall id: nat ensures !Bit(0, id) {
        ZeroHasNoBit(id);
      }
    }

    // task_load
    static method Load(words: array<u32>, at: nat) returns (t: Task)
      requires at + TASK_WORDS <= words.Length
      ensures t == TaskAt(words[..], at)
      ensures t == Task(words[at], words[at + 1], words[at + 2], words[at + 3], words[at + 4])
    {
      t := Task(words[at], words[at + 1], words[at + 2], words[at + 3], words[at + 4]);
    }

    // task_store
    static method Store(words: array<u32>, at: nat, t: Task)
      requires at + TASK_WORDS <= words.Length
      modifies words
      ensures TaskAt(words[..], at) == t && words[at..at + TASK_WORDS] == [t.id, t.ip, t.sp, t.code, t.stack]
      ensures forall k | 0 <= k < words.Length && !(at <= k < at + TASK_WORDS) :: words[k] == old(words[k])
    {
      words[at] := t.id;
      words[at + 1] := t.ip;
      words[at + 2] := t.sp;
      words[at + 3] := t.code;
      words[at + 4] := t.stack;
    }

    // A task joins the queue.
    method Enqueue(t: Task)
      requires Shaped() && queueEnd < QUEUE_WORDS
      modifies this`queueEnd, queue
      ensures Shaped() && Order() == old(Order()) + [t]
    {
      hide TaskAt, Records;
      ghost var n := queueEnd / TASK_WORDS;
      ghost var was := queue[..];
      Store(queue, queueEnd, t);
      queueEnd := queueEnd + TASK_WORDS;
      RecordsMore(was, queue[..], n);
    }

    // yield_task_1: all records but the first move down by one.
    method ShiftDown()
      requires Shaped() && queueEnd > 0
      modifies queue
      ensures var n := queueEnd / TASK_WORDS; Records(queue[..], n - 1) == Records(old(queue[..]), n)[1..]
    {
      hide TaskAt;
      ghost var n := queueEnd / TASK_WORDS;
      ghost var was := queue[..];
      ghost var i := 0;
      var r1 := 0;
      while true
        invariant r1 == TASK_WORDS * i && 0 <= i < n
        invariant forall j | 0 <= j < i :: TaskAt(queue[..], TASK_WORDS * j) == TaskAt(was, TASK_WORDS * (j + 1))
        invariant forall k | r1 <= k < QUEUE_WORDS :: queue[k] == was[k]
        decreases n - i
      {
        r1 := r1 + TASK_WORDS;
        if queueEnd == r1 {
          break;
        }
        ghost var before := queue[..];
        var t := Load(queue, r1);
        Store(queue, r1 - TASK_WORDS, t);
        forall j | 0 <= j < i ensures TaskAt(queue[..], TASK_WORDS * j) == TaskAt(before, TASK_WORDS * j) {
          SameRecord(before, queue[..], TASK_WORDS * j);
        }
        SameRecord(was, before, r1);
        i := i + 1;
      }
      ghost var rest := Records(was, n)[1..];
      assert |rest| == n - 1 && forall j | 0 <= j < n - 1 :: rest[j] == TaskAt(was, TASK_WORDS * (j + 1));
      assert Records(queue[..], n - 1) == rest;
    }

    // yield_task_0: the first task of the queue becomes the current one, and the others move down.
    method SwitchToNext() returns (at: Resume)
      requires Shaped() && queueEnd > 0
      modifies this`queueEnd, current, queue
      ensures Shaped() && Order() == old(Order())[1..]
      ensures at == Resume(Order()[0].ip, Order()[0].sp)
    {
      hide TaskAt, Records;
      ghost var n := queueEnd / TASK_WORDS;
      ghost var was := queue[..];
      var first := Load(queue, 0);
      Store(current, 0, first);
      ghost var stored := current[..];
      assert queue[..] == was;
      ShiftDown();
      assert current[..] == stored;
      var now := Load(current, 0);
      queueEnd := queueEnd - TASK_WORDS;
      ghost var rest := Records(was, n)[1..];
      assert Records(was, n) == [first] + rest && old(Order())[1..] == Records(was, n);
      at := Resume(now.ip, now.sp);
    }

    // yield_task, with the return address and the stack pointer of the task that yields.
    method YieldTask(returnAddress: u32, rsp: u32) returns (at: Resume)
      requires Valid()
      modifies this`queueEnd, current, queue
      ensures Valid() && idBitmap == old(idBitmap)
      ensures Order() == Yield(old(Order()), Resume(returnAddress, rsp))
      ensures var t := old(Order()[0]);
              Order() == old(Order())[1..] + [Task(t.id, returnAddress, rsp, t.code, t.stack)]
      ensures at == Resume(Order()[0].ip, Order()[0].sp)
    {
      hide IdsMatch, TaskAt, Order;
      TasksFit(Order(), idBitmap);
      YieldKeepsIds(Order(), Resume(returnAddress, rsp), idBitmap);
      var t := Load(current, 0);
      Enqueue(t.(ip := returnAddress, sp := rsp));
      ghost var o, last := old(Order()), Saved(old(Order())[0], Resume(returnAddress, rsp));
      assert (o + [last])[1..] == o[1..] + [last];
      at := SwitchToNext();
    }

    // new_task, with the return address and the stack pointer it saves for its caller.
    method NewTask(id: u32, ip: u32, sp: u32, code: u32, stack: u32, returnAddress: u32, rsp: u32) returns (at: Resume)
      requires Valid() && 1 <= id < 32 && !Bit(idBitmap, id)
      modifies this`idBitmap, this`queueEnd, current, queue
      ensures Valid() && idBitmap == WithId(old(idBitmap), id)
      ensures Order() == Yield(old(Order()) + [Task(id, ip, sp, code, stack)], Resume(returnAddress, rsp))
      ensures var t := old(Order()[0]);
              Order() == old(Order())[1..] + [Task(id, ip, sp, code, stack), Task(t.id, returnAddress, rsp, t.code, t.stack)]
      ensures at == Resume(Order()[0].ip, Order()[0].sp)
    {
      hide IdsMatch, TaskAt, Order, Yield;
      ghost var t := Task(id, ip, sp, code, stack);
      TasksFit(Order(), idBitmap);
      NewTaskKeepsIds(Order(), t, idBitmap);
      idBitmap := WithId(idBitmap, id);
      Enqueue(Task(id, ip, sp, code, stack));
      at := YieldTask(returnAddress, rsp);
    }

    // end_current_task_no_mark_no_free.  The IDs still match afterwards when it was meant for the current
    // task: what runs before the first one, with ID 0.
    method EndUnmarked() returns (r: Switched)
      requires Shaped()
      modifies this`queueEnd, current, queue
      ensures Shaped() && (old(Valid() && Order()[0].id == 0) ==> Valid())
      ensures r.Starved? <==> old(|Order()|) == 1
      ensures r.Starved? ==> Order() == old(Order())
      ensures r.RunsAt? ==> Order() == old(Order())[1..] && r.at == Resume(Order()[0].ip, Order()[0].sp)
      ensures idBitmap == old(idBitmap)
    {
      hide IdsMatch, TaskAt, Order;
      if queueEnd == 0 {
        return Starved;
      }
      if Valid() {
        EndKeepsIds(Order(), idBitmap);
      }
      var at := SwitchToNext();
      r := RunsAt(at);
    }

    // The blocks of a task are given back.
    static method FreeBlocks(heap: Allocator, t: Task)
      requires heap.Valid()
      requires t.code != 0 ==> t.code >= 12 && t.code - 12 in heap.blocks.live
      requires t.stack != 0 ==> t.stack >= 12 && t.stack - 12 in heap.blocks.live
      requires t.code != 0 && t.stack != 0 ==> t.code != t.stack
      modifies heap
      ensures heap.Valid() && heap.blocks.size == old(heap.blocks.size)
      ensures heap.blocks.live == old(heap.blocks.live) - (if t.code != 0 then {t.code - 12} else {})
                                                        - (if t.stack != 0 then {t.stack - 12} else {})
    {
      hide Inv;
      if t.code != 0 {
        heap.Free(t.code);
      }
      if t.stack != 0 {
        heap.Free(t.stack);
      }
    }

    // end_current_task: the ID and the blocks of the task are given back.  A task alone is gone all the
    // same, and the kernel panics.
    method EndCurrent(heap: Allocator) returns (r: Switched)
      requires Valid() && heap.Valid()
      requires var t := Order()[0];
               && (t.code != 0 ==> t.code >= 12 && t.code - 12 in heap.blocks.live)
               && (t.stack != 0 ==> t.stack >= 12 && t.stack - 12 in heap.blocks.live)
               && (t.code != 0 && t.stack != 0 ==> t.code != t.stack)
      modifies this`idBitmap, this`queueEnd, current, queue, heap
      ensures heap.Valid() && heap.blocks.size == old(heap.blocks.size)
      ensures var t := old(Order()[0]);
              heap.blocks.live == old(heap.blocks.live) - (if t.code != 0 then {t.code - 12} else {})
                                                        - (if t.stack != 0 then {t.stack - 12} else {})
      ensures old(Order()[0].id) < 32 && idBitmap == WithoutId(old(idBitmap), old(Order()[0].id))
      ensures r.Starved? <==> old(|Order()|) == 1
      ensures r.RunsAt? ==> Valid() && Order() == old(Order())[1..] && r.at == Resume(Order()[0].ip, Order()[0].sp)
    {
      hide Inv, TaskAt, Order;
      assert Order()[0].id < 32;
      hide IdsMatch;
      var t := Load(current, 0);
      if queueEnd > 0 {
        EndKeepsIds(Order(), idBitmap);
      }
      idBitmap := WithoutId(idBitmap, t.id);
      FreeBlocks(heap, t);
      if queueEnd == 0 {
        return Starved;
      }
      var at := SwitchToNext();
      r := RunsAt(at);
    }

    // get_unused_task_id: the least free ID from 1 on, or 0.
    method GetUnusedId() returns (id: u32)
      requires Valid()
      ensures id == 0 ==> forall j: nat | 1 <= j < 32 :: Bit(idBitmap, j)
      ensures id != 0 ==> id < 32 && !Bit(idBitmap, id) && id !in Ids(Order())
                          && forall j: nat | 1 <= j < id :: Bit(idBitmap, j)
    {
      id := 1;
      while id < 32
        invariant 1 <= id <= 32 && forall j: nat | 1 <= j < id :: Bit(idBitmap, j)
      {
        if !Bit(idBitmap, id) {
          return;
        }
        id := id + 1;
      }
      id := 0;
    }
  }
}
