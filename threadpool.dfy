/**
 * The owner side of `ThreadPool` (threadpool/src/lib.rs) as a sequential
 * state machine: the worker vector with each worker's optional thread handle,
 * the messages put into the shared channel, and a ghost trace of every send
 * and every join in the order they happen. Threads, the receiving side and
 * the jobs' execution are not modelled; a job is an opaque payload.
 */
module Pool {
  import opened Wrappers

  /** What travels on the channel: a boxed job, or the order to stop. */
  datatype Message<Job> = NewJob(job: Job) | Terminate

  /** The join handle of the thread spawned for worker `worker`. */
  datatype Handle = Handle(worker: nat)

  /** A worker record: its id and its thread slot (`None` once taken). */
  datatype Worker = Worker(id: nat, thread: Option<Handle>)

  /** One observable step of the pool's owner: a message sent, or a thread joined. */
  datatype Event<Job> = Sent(msg: Message<Job>) | Joined(handle: Handle)

  /** `n` terminate messages. */
  function Terminates<Job>(n: nat): seq<Message<Job>>
  {
    seq(n, _ => Terminate)
  }

  /** The trace of sending `ms`, in order. */
  function Sends<Job>(ms: seq<Message<Job>>): seq<Event<Job>>
  {
    seq(|ms|, i requires 0 <= i < |ms| => Sent(ms[i]))
  }

  /** The trace of joining `hs`, in order. */
  function Joins<Job>(hs: seq<Handle>): seq<Event<Job>>
  {
    seq(|hs|, i requires 0 <= i < |hs| => Joined(hs[i]))
  }

  /** The handles that `drop` takes out of `ws`, in vector order: the slots that hold `Some`. */
  function TakenHandles(ws: seq<Worker>): seq<Handle>
  {
    if ws == [] then []
    else
      var last := ws[|ws| - 1];
      TakenHandles(ws[..|ws| - 1]) + (if last.thread.Some? then [last.thread.value] else [])
  }

  /** The number of `Terminate` messages in `ms`. */
  function TerminateCount<Job>(ms: seq<Message<Job>>): nat
  {
    if ms == [] then 0
    else TerminateCount(ms[..|ms| - 1]) + (if ms[|ms| - 1].Terminate? then 1 else 0)
  }

  /** Worker `i` has id `i`, and its slot is empty or holds its own thread's handle. */
  ghost predicate WellFormed(ws: seq<Worker>)
  {
    forall i :: 0 <= i < |ws| ==> ws[i].id == i && (ws[i].thread.None? || ws[i].thread == Some(Handle(i)))
  }

  /** The handles of workers `0..n-1` each occur exactly once in `hs`. */
  ghost predicate EachJoinedOnce(hs: seq<Handle>, n: nat)
  {
    forall i :: 0 <= i < n ==> multiset(hs)[Handle(i)] == 1
  }

  /** No send comes after a join. */
  ghost predicate SendsBeforeJoins<Job>(t: seq<Event<Job>>)
  {
    forall i, j :: 0 <= i < j < |t| && t[i].Joined? ==> t[j].Joined?
  }

  /** No job comes after a terminate message. */
  ghost predicate TerminatesLast<Job>(ms: seq<Message<Job>>)
  {
    forall i, j :: 0 <= i < j < |ms| && ms[i].Terminate? ==> ms[j].Terminate?
  }

  /**
   * Every slot that holds a handle has it taken exactly once, an empty slot
   * contributes nothing, and nothing else is taken.
   */
  lemma {:induction false} TakenHandlesExactlyOnce(ws: seq<Worker>)
    requires WellFormed(ws)
    ensures forall i :: 0 <= i < |ws| ==>
      multiset(TakenHandles(ws))[Handle(i)] == if ws[i].thread.Some? then 1 else 0
    ensures forall h :: h in TakenHandles(ws) ==> h.worker < |ws| && ws[h.worker].thread == Some(h)
    decreases |ws|
  {
    if ws != [] {
      var init := ws[..|ws| - 1];
      var last := ws[|ws| - 1];
      var tail: seq<Handle> := if last.thread.Some? then [last.thread.value] else [];
      assert WellFormed(init) by {
        forall i | 0 <= i < |init| ensures init[i] == ws[i] { }
      }
      TakenHandlesExactlyOnce(init);
      assert TakenHandles(ws) == TakenHandles(init) + tail;
      assert multiset(TakenHandles(ws)) == multiset(TakenHandles(init)) + multiset(tail);
      forall i | 0 <= i < |ws|
        ensures multiset(TakenHandles(ws))[Handle(i)] == if ws[i].thread.Some? then 1 else 0
      {
        if i < |init| {
          assert init[i] == ws[i];
          assert multiset(tail)[Handle(i)] == 0;
        } else {
          assert Handle(i) !in TakenHandles(init);
        }
      }
    }
  }

  /** When every slot holds its handle, `drop` takes each worker's handle exactly once. */
  lemma EveryLiveHandleJoinedOnce(ws: seq<Worker>)
    requires forall i :: 0 <= i < |ws| ==> ws[i] == Worker(i, Some(Handle(i)))
    ensures EachJoinedOnce(TakenHandles(ws), |ws|)
  {
    // An instance of TakenHandlesExactlyOnce: every slot is occupied and well formed.
  }

  /** Sends followed by joins: no send after a join. */
  lemma SendsThenJoins<Job>(ms: seq<Message<Job>>, hs: seq<Handle>)
    ensures SendsBeforeJoins(Sends(ms) + Joins<Job>(hs))
  {
    // A join sits at an index at least `|ms|`, and so does every later event.
  }

  lemma {:induction false} TerminateCountAppend<Job>(a: seq<Message<Job>>, b: seq<Message<Job>>)
    ensures TerminateCount(a + b) == TerminateCount(a) + TerminateCount(b)
    decreases |b|
  {
    if b == [] {
      assert a + b == a;
    } else {
      assert (a + b)[..|a + b| - 1] == a + b[..|b| - 1];
      TerminateCountAppend(a, b[..|b| - 1]);
    }
  }

  lemma {:induction false} TerminateCountOfTerminates<Job>(n: nat)
    ensures TerminateCount(Terminates<Job>(n)) == n
  {
    if n > 0 {
      assert Terminates<Job>(n)[..n - 1] == Terminates<Job>(n - 1);
      TerminateCountOfTerminates<Job>(n - 1);
    }
  }

  lemma {:induction false} NoTerminateCountsZero<Job>(ms: seq<Message<Job>>)
    requires forall i :: 0 <= i < |ms| ==> ms[i].NewJob?
    ensures TerminateCount(ms) == 0
    decreases |ms|
  {
    if ms != [] {
      NoTerminateCountsZero(ms[..|ms| - 1]);
    }
  }

  /**
   * Sending `n` terminates after a queue of jobs leaves every job ahead of
   * every terminate, and the queue then holds exactly `n` terminates.
   */
  lemma JobsThenTerminates<Job>(ms: seq<Message<Job>>, n: nat)
    requires forall i :: 0 <= i < |ms| ==> ms[i].NewJob?
    ensures TerminatesLast(ms + Terminates(n))
    ensures TerminateCount(ms + Terminates(n)) == n
  {
    TerminateCountAppend(ms, Terminates(n));
    NoTerminateCountsZero(ms);
    TerminateCountOfTerminates<Job>(n);
  }

  /**
   * What `drop` achieves on a live pool whose channel holds the jobs `jobs`
   * and whose slots all hold their handles: the channel ends with exactly one
   * terminate per worker behind every job, no terminate is sent after a join,
   * and each worker's handle is joined exactly once.
   */
  lemma DropProtocol<Job>(jobs: seq<Message<Job>>, ws: seq<Worker>)
    requires forall i :: 0 <= i < |jobs| ==> jobs[i].NewJob?
    requires forall i :: 0 <= i < |ws| ==> ws[i] == Worker(i, Some(Handle(i)))
    ensures TerminatesLast(jobs + Terminates(|ws|))
    ensures TerminateCount(jobs + Terminates(|ws|)) == |ws|
    ensures SendsBeforeJoins(Sends(jobs) + Sends(Terminates<Job>(|ws|)) + Joins<Job>(TakenHandles(ws)))
    ensures EachJoinedOnce(TakenHandles(ws), |ws|)
  {
    // The channel part is JobsThenTerminates; the trace is the sends of the
    // whole channel followed by the joins, as in SendsThenJoins; the joins
    // are EveryLiveHandleJoinedOnce.
  }

  /**
   * `ThreadPool { workers, sender }`. `channel` is everything sent through
   * `sender` so far; `trace` records the sends and the joins in order;
   * `dropped` tells whether `drop` has run.
   */
  class ThreadPool<Job> {
    var workers: array<Worker>
    var channel: seq<Message<Job>>
    ghost var trace: seq<Event<Job>>
    ghost var dropped: bool

    ghost predicate Valid()
      reads this, workers
    {
      0 < workers.Length &&
      WellFormed(workers[..]) &&
      (!dropped ==>
        trace == Sends(channel) &&
        (forall i :: 0 <= i < |channel| ==> channel[i].NewJob?) &&
        (forall i :: 0 <= i < workers.Length ==> workers[i].thread == Some(Handle(i)))) &&
      (dropped ==>
        TerminatesLast(channel) &&
        TerminateCount(channel) == workers.Length &&
        SendsBeforeJoins(trace) &&
        (forall i :: 0 <= i < workers.Length ==> workers[i].thread.None?))
    }

    /**
     * The body of `new` after its `assert!`: an empty channel and `poolSize`
     * workers, worker `id` with id `id` and its freshly spawned thread.
     */
    constructor Spawn(poolSize: nat)
      requires poolSize > 0
      ensures Valid() && !dropped && fresh(workers)
      ensures workers.Length == poolSize
      ensures forall i :: 0 <= i < poolSize ==> workers[i] == Worker(i, Some(Handle(i)))
      ensures channel == [] && trace == []
    {
      var ws := new Worker[poolSize];
      var id := 0;
      while id < poolSize
        invariant 0 <= id <= poolSize
        invariant forall i :: 0 <= i < id ==> ws[i] == Worker(i, Some(Handle(i)))
      {
        ws[id] := Worker(id, Some(Handle(id)));
        id := id + 1;
      }
      workers := ws;
      channel := [];
      trace := [];
      dropped := false;
    }

    /** `sender.send(message)`: the message joins the end of the channel. */
    method Send(message: Message<Job>)
      modifies this`channel, this`trace
      ensures channel == old(channel) + [message]
      ensures trace == old(trace) + [Sent(message)]
    {
      channel := channel + [message];
      trace := trace + [Sent(message)];
    }

    /** `thread.join()`: waits for the thread; only the event is recorded. */
    method Join(handle: Handle)
      modifies this`trace
      ensures trace == old(trace) + [Joined(handle)]
    {
      trace := trace + [Joined(handle)];
    }

    /** `execute(job)`: exactly one `NewJob(job)` is appended; the workers are untouched. */
    method Execute(job: Job)
      requires Valid() && !dropped
      modifies this`channel, this`trace
      ensures Valid() && !dropped
      ensures channel == old(channel) + [NewJob(job)]
      ensures trace == old(trace) + [Sent(NewJob(job))]
    {
      Send(NewJob(job));
      assert Sends(channel) == old(Sends(channel)) + [Sent(NewJob(job))];
    }

    /**
     * `drop`: one `Terminate` per worker, then each worker's handle is taken,
     * leaving `None`, and joined if there was one. All terminates go out
     * before the first join, each worker's handle is joined exactly once, and
     * the workers keep their number and ids.
     */
    method Drop()
      requires Valid() && !dropped
      modifies this`channel, this`trace, this`dropped, workers
      ensures Valid() && dropped
      ensures channel == old(channel) + Terminates(workers.Length)
      ensures trace == old(trace) + Sends(Terminates(workers.Length)) + Joins(TakenHandles(old(workers[..])))
      ensures EachJoinedOnce(TakenHandles(old(workers[..])), workers.Length)
      ensures forall i :: 0 <= i < workers.Length ==> workers[i] == Worker(old(workers[i].id), None)
    {
      ghost var ws0 := workers[..];
      SendTerminates();
      TakeAndJoin();
      dropped := true;
      DropProtocol(old(channel), ws0);
      assert WellFormed(workers[..]) by {
        forall j | 0 <= j < workers.Length
          ensures workers[..][j] == Worker(j, None)
        {
          assert ws0[j].id == j;
        }
      }
    }

    /** The first loop of `drop`: `for _ in &self.workers { send(Terminate) }`. */
    method SendTerminates()
      modifies this`channel, this`trace
      ensures channel == old(channel) + Terminates(workers.Length)
      ensures trace == old(trace) + Sends(Terminates(workers.Length))
    {
      var k := 0;
      while k < workers.Length
        invariant 0 <= k <= workers.Length
        invariant channel == old(channel) + Terminates(k)
        invariant trace == old(trace) + Sends(Terminates(k))
      {
        Send(Terminate);
        assert Terminates<Job>(k + 1) == Terminates<Job>(k) + [Terminate];
        assert Sends(Terminates<Job>(k + 1)) == Sends(Terminates<Job>(k)) + [Sent(Terminate)];
        k := k + 1;
      }
    }

    /**
     * The second loop of `drop`: for each worker in order, `thread.take()`
     * leaves `None` in the slot, and a handle that was there is joined.
     */
    method TakeAndJoin()
      modifies this`trace, workers
      ensures forall i :: 0 <= i < workers.Length ==> workers[i] == Worker(old(workers[i].id), None)
      ensures trace == old(trace) + Joins(TakenHandles(old(workers[..])))
    {
      ghost var ws0 := workers[..];
      var i := 0;
      while i < workers.Length
        invariant 0 <= i <= workers.Length
        invariant forall j :: 0 <= j < i ==> workers[j] == Worker(ws0[j].id, None)
        invariant forall j :: i <= j < workers.Length ==> workers[j] == ws0[j]
        invariant trace == old(trace) + Joins(TakenHandles(ws0[..i]))
      {
        var worker := workers[i];
        workers[i] := Worker(worker.id, None);
        assert ws0[..i + 1][..i] == ws0[..i];
        match worker.thread {
          case Some(handle) =>
            Join(handle);
            assert Joins<Job>(TakenHandles(ws0[..i + 1])) == Joins<Job>(TakenHandles(ws0[..i])) + [Joined(handle)];
          case None =>
        }
        i := i + 1;
      }
      assert ws0[..i] == ws0;
    }
  }

  /**
   * `ThreadPool::new(pool_size)`: `None` stands for the `assert!(pool_size > 0)`
   * panic; otherwise a fresh pool with `pool_size` workers.
   */
  method New<Job>(poolSize: nat) returns (pool: Option<ThreadPool<Job>>)
    ensures pool.None? <==> poolSize == 0
    ensures pool.Some? ==>
      var p := pool.value;
      fresh(p) && fresh(p.workers) && p.Valid() && !p.dropped &&
      p.workers.Length == poolSize &&
      (forall i :: 0 <= i < poolSize ==> p.workers[i] == Worker(i, Some(Handle(i)))) &&
      p.channel == [] && p.trace == []
  {
    if poolSize == 0 {
      return None;
    }
    var p := new ThreadPool<Job>.Spawn(poolSize);
    return Some(p);
  }
}
