/** The concurrency-limited task queue of src/utils/loadQueue.ts as a state
    machine. Tasks are named by the order in which they were enqueued
    (0, 1, 2, ...); a task's promise and its timing are not modelled, only the
    events "enqueue" and "a running task settles". */
module LoadQueue {

  /** How a task's promise settled. */
  datatype Outcome = Fulfilled | Rejected

  /** `waiting` is the `queue` array, `running` the counter. `inFlight`,
      `started` and `settled` record which task is where: the running task
      set, the order in which tasks were started, and each settled task's outcome. */
  datatype Queue = Queue(
    concurrency: int,
    waiting: seq<nat>,
    running: int,
    inFlight: set<nat>,
    started: seq<nat>,
    settled: map<nat, Outcome>,
    nextId: nat
  )

  /** The limit `createLoadQueue` uses when no concurrency is given. */
  const DefaultConcurrency: int := 4

  /** `createLoadQueue(concurrency = 4)`. */
  function CreateLoadQueue(concurrency: int := DefaultConcurrency): (q: Queue)
    ensures q.concurrency == concurrency
    ensures q.running == 0 && q.waiting == [] && q.nextId == 0
    ensures q.inFlight == {} && q.started == [] && q.settled == map[]
  {
    Queue(concurrency, [], 0, {}, [], map[], 0)
  }

  const ThumbnailConcurrency: int := 6

  /** The shared thumbnail queue. */
  function ThumbnailQueue(): (q: Queue)
    ensures q.concurrency == 6 && q.running == 0 && q.waiting == []
  {
    CreateLoadQueue(ThumbnailConcurrency)
  }

  /** `runNext()`: start the oldest waiting task if a slot is free. */
  function RunNext(q: Queue): (r: Queue)
    ensures r.concurrency == q.concurrency && r.nextId == q.nextId && r.settled == q.settled
    ensures q.running >= q.concurrency || |q.waiting| == 0 ==> r == q
    ensures q.running < q.concurrency && |q.waiting| > 0 ==>
      && r.waiting == q.waiting[1..]
      && r.running == q.running + 1
      && r.inFlight == q.inFlight + {q.waiting[0]}
      && r.started == q.started + [q.waiting[0]]
  {
    if q.running >= q.concurrency || |q.waiting| == 0 then q
    else
      var id := q.waiting[0];
      q.(waiting := q.waiting[1..], running := q.running + 1,
         inFlight := q.inFlight + {id}, started := q.started + [id])
  }

  /** `enqueue(task)`: append the task (it gets the next id) and try to start one. */
  function Enqueue(q: Queue): (res: (Queue, nat))
    ensures res.1 == q.nextId && res.0.nextId == q.nextId + 1
    ensures res.0.concurrency == q.concurrency && res.0.settled == q.settled
    ensures q.running < q.concurrency && |q.waiting| == 0 ==>
      && res.0.started == q.started + [res.1] && res.0.waiting == []
      && res.0.inFlight == q.inFlight + {res.1} && res.0.running == q.running + 1
    ensures q.running >= q.concurrency ==>
      && res.0.waiting == q.waiting + [res.1] && res.0.running == q.running
      && res.0.started == q.started && res.0.inFlight == q.inFlight
  {
    var id := q.nextId;
    (RunNext(q.(waiting := q.waiting + [id], nextId := id + 1)), id)
  }

  /** A running task settles: its promise is resolved or rejected, the
      `finally` handler decrements the counter and calls `runNext()`. */
  function Finish(q: Queue, id: nat, outcome: Outcome): (r: Queue)
    requires id in q.inFlight
    ensures r.settled == q.settled[id := outcome]
    ensures id !in r.inFlight || (|q.waiting| > 0 && q.waiting[0] == id)
    ensures r.concurrency == q.concurrency && r.nextId == q.nextId
    ensures q.running - 1 < q.concurrency && |q.waiting| > 0 ==>
      r.running == q.running && r.waiting == q.waiting[1..] && r.started == q.started + [q.waiting[0]]
    ensures q.running - 1 >= q.concurrency || |q.waiting| == 0 ==>
      r.running == q.running - 1 && r.waiting == q.waiting && r.started == q.started
  {
    RunNext(q.(running := q.running - 1, inFlight := q.inFlight - {id},
               settled := q.settled[id := outcome]))
  }

  function Max(a: int, b: int): int {
    if a < b then b else a
  }

  /** The queue's invariant. */
  ghost predicate Valid(q: Queue) {
    // the counter counts the running tasks and respects the bound
    && q.running == |q.inFlight|
    && q.running <= Max(q.concurrency, 0)
    // work conservation: nothing waits while a slot is free
    && (|q.waiting| > 0 ==> q.running >= q.concurrency)
    // FIFO: the started tasks then the waiting ones are exactly 0, 1, ..., nextId - 1
    && |q.started| + |q.waiting| == q.nextId
    && (forall k :: 0 <= k < |q.started| ==> q.started[k] == k)
    && (forall k :: 0 <= k < |q.waiting| ==> q.waiting[k] == |q.started| + k)
    // every started task is either running or settled, never both
    && (forall id: nat :: id in q.inFlight <==> id < |q.started| && id !in q.settled)
    && (forall id: nat :: id in q.settled ==> id < |q.started|)
    // with one slot, only the most recently started task can be running
    && (q.concurrency == 1 ==> forall id :: id in q.inFlight ==> id == |q.started| - 1)
  }

  lemma CreateValid(concurrency: int)
    ensures Valid(CreateLoadQueue(concurrency))
  {
  }

  lemma {:induction false} EnqueuePreservesValid(q: Queue)
    requires Valid(q)
    ensures Valid(Enqueue(q).0)
  {
    var q1 := q.(waiting := q.waiting + [q.nextId], nextId := q.nextId + 1);
    var r := RunNext(q1);
    if q1.running < q1.concurrency && |q1.waiting| > 0 {
      assert q.waiting == [];
      assert r.started == q.started + [q.nextId];
      assert r.inFlight == q.inFlight + {q.nextId};
      assert q.nextId !in q.inFlight;
    }
  }

  lemma {:induction false} FinishPreservesValid(q: Queue, id: nat, outcome: Outcome)
    requires Valid(q)
    requires id in q.inFlight
    ensures Valid(Finish(q, id, outcome))
    ensures id !in Finish(q, id, outcome).inFlight
  {
    if |q.waiting| > 0 {
      assert q.waiting[0] == |q.started| && id < |q.started|;
    }
    if q.running - 1 < q.concurrency && |q.waiting| > 0 {
      FinishStartsNextValid(q, id, outcome);
    } else {
      FinishIdleValid(q, id, outcome);
    }
  }

  /** The slot freed by a settled task goes to the oldest waiting task. */
  lemma FinishStartsNextValid(q: Queue, id: nat, outcome: Outcome)
    requires Valid(q)
    requires id in q.inFlight
    requires q.running - 1 < q.concurrency && |q.waiting| > 0
    ensures Valid(Finish(q, id, outcome))
  {
    var r := Finish(q, id, outcome);
    var next := q.waiting[0];
    assert next == |q.started|;
    assert next !in q.settled && next != id;
    assert r.inFlight == q.inFlight - {id} + {next};
    assert |q.inFlight - {id}| == |q.inFlight| - 1;
  }

  /** With nothing waiting, or the limit still reached, the slot stays free. */
  lemma FinishIdleValid(q: Queue, id: nat, outcome: Outcome)
    requires Valid(q)
    requires id in q.inFlight
    requires !(q.running - 1 < q.concurrency && |q.waiting| > 0)
    ensures Valid(Finish(q, id, outcome))
  {
    var r := Finish(q, id, outcome);
    assert r.inFlight == q.inFlight - {id};
    assert |q.inFlight - {id}| == |q.inFlight| - 1;
  }

  /** A task that fails frees its slot exactly like one that succeeds: the two
      outcomes lead to the same schedule and differ only in the recorded outcome. */
  lemma FailureOnlyAffectsItsOwnTask(q: Queue, id: nat)
    requires id in q.inFlight
    ensures Finish(q, id, Rejected) == Finish(q, id, Fulfilled).(settled := q.settled[id := Rejected])
    ensures Finish(q, id, Rejected).settled[id] == Rejected
    ensures forall other :: other in q.settled && other != id ==>
      Finish(q, id, Rejected).settled[other] == q.settled[other]
  {
  }

  /** When a task settles while others wait, the oldest waiting task starts
      at once, whatever the outcome of the settled one. */
  lemma {:induction false} FinishStartsOldestWaiting(q: Queue, id: nat, outcome: Outcome)
    requires Valid(q)
    requires id in q.inFlight
    requires |q.waiting| > 0
    ensures var r := Finish(q, id, outcome);
      r.started == q.started + [q.waiting[0]] && q.waiting[0] in r.inFlight && r.running == q.running
  {
    assert q.running <= q.concurrency;
  }

  /** With one slot, every started task except the last has settled before the
      next one started: execution is strictly sequential in enqueue order. */
  lemma {:induction false} SingleSlotIsSequential(q: Queue)
    requires Valid(q)
    requires q.concurrency == 1
    ensures |q.inFlight| <= 1
    ensures forall k :: 0 <= k < |q.started| - 1 ==> k in q.settled
  {
    forall k | 0 <= k < |q.started| - 1
      ensures k in q.settled
    {
      assert k != |q.started| - 1;
      assert k !in q.inFlight;
    }
  }

  /** The events of one run of the queue. */
  datatype Event = Add | Settle(id: nat, outcome: Outcome)

  /** One event; a settlement of a task that is not running cannot happen and is ignored. */
  function Step(q: Queue, e: Event): (r: Queue)
    ensures r.concurrency == q.concurrency
    ensures e.Add? ==> r.nextId == q.nextId + 1 && r.settled == q.settled
    ensures e.Settle? && e.id in q.inFlight ==>
      r.nextId == q.nextId && r.settled == q.settled[e.id := e.outcome]
    ensures e.Settle? && e.id !in q.inFlight ==> r == q
  {
    match e
    case Add => Enqueue(q).0
    case Settle(id, outcome) => if id in q.inFlight then Finish(q, id, outcome) else q
  }

  /** The number of `Add` events. */
  function Adds(events: seq<Event>): nat
    decreases |events|
  {
    if |events| == 0 then 0 else (if events[0].Add? then 1 else 0) + Adds(events[1..])
  }

  /** The queue after the events, in order. Every enqueue hands out exactly
      one new id, and the limit never changes. */
  function Run(q: Queue, events: seq<Event>): (r: Queue)
    decreases |events|
    ensures r.concurrency == q.concurrency
    ensures r.nextId == q.nextId + Adds(events)
  {
    if |events| == 0 then q else Run(Step(q, events[0]), events[1..])
  }

  /** Along any run from a fresh queue, the invariant holds after every event; in
      particular the running count never exceeds the concurrency. */
  lemma {:induction false} RunPreservesValid(q: Queue, events: seq<Event>)
    requires Valid(q)
    ensures Valid(Run(q, events))
    ensures Run(q, events).running <= Max(q.concurrency, 0)
    ensures Run(q, events).concurrency == q.concurrency
    decreases |events|
  {
    if |events| > 0 {
      var q1 := Step(q, events[0]);
      match events[0] {
        case Add => EnqueuePreservesValid(q);
        case Settle(id, outcome) =>
          if id in q.inFlight {
            FinishPreservesValid(q, id, outcome);
          }
      }
      RunPreservesValid(q1, events[1..]);
    }
  }

  /** Four tasks on a queue with two slots: two run, two wait, oldest first. */
  lemma TwoSlotsFourTasks()
    ensures var q := Run(CreateLoadQueue(2), [Add, Add, Add, Add]);
      q.running == 2 && q.started == [0, 1] && q.waiting == [2, 3]
  {
    var q0 := CreateLoadQueue(2);
    var q1 := Step(q0, Add);
    var q2 := Step(q1, Add);
    var q3 := Step(q2, Add);
    var q4 := Step(q3, Add);
    assert q2.running == 2 && q2.started == [0, 1];
    assert q4.waiting == [2, 3];
    assert Run(q0, [Add, Add, Add, Add]) == Run(q1, [Add, Add, Add]);
    assert Run(q1, [Add, Add, Add]) == Run(q2, [Add, Add]);
    assert Run(q2, [Add, Add]) == Run(q3, [Add]);
    assert Run(q3, [Add]) == Run(q4, []);
  }

  /** Five tasks on a queue created without a limit: the default four run, the fifth waits. */
  lemma DefaultQueueFiveTasks()
    ensures var q := Run(CreateLoadQueue(), [Add, Add, Add, Add, Add]);
      q.running == 4 && q.started == [0, 1, 2, 3] && q.waiting == [4]
  {
    var q0 := CreateLoadQueue();
    var q1 := Step(q0, Add);
    var q2 := Step(q1, Add);
    var q3 := Step(q2, Add);
    var q4 := Step(q3, Add);
    var q5 := Step(q4, Add);
    assert q4.running == 4 && q4.started == [0, 1, 2, 3];
    assert q5.waiting == [4];
    assert Run(q0, [Add, Add, Add, Add, Add]) == Run(q1, [Add, Add, Add, Add]);
    assert Run(q1, [Add, Add, Add, Add]) == Run(q2, [Add, Add, Add]);
    assert Run(q2, [Add, Add, Add]) == Run(q3, [Add, Add]);
    assert Run(q3, [Add, Add]) == Run(q4, [Add]);
    assert Run(q4, [Add]) == Run(q5, []);
  }
}
