/**
 The thread pool's shared state and its critical sections.

 Everything here happens under `mutex_`, so each section is one atomic step; the
 interleaving of those steps is the subject of `PoolProtocol`. A task is known by its
 priority and sequence number; its callable is opaque.
 */
module PoolCore {

  datatype Task = Task(priority: int, seqNo: nat)

  /** Task::operator<: the task that is dispatched later. */
  predicate Less(a: Task, b: Task) {
    if a.priority != b.priority then a.priority < b.priority else a.seqNo > b.seqNo
  }

  /** What std::priority_queue promises of top(): no queued task is above it. */
  predicate IsTop(queue: multiset<Task>, t: Task) {
    t in queue && forall u | u in queue :: !Less(t, u)
  }

  /** operator< is the strict weak order std::priority_queue asks for, and it ties no two tasks. */
  lemma LessIsStrictTotalOrder(a: Task, b: Task, c: Task)
    ensures !Less(a, a)
    ensures Less(a, b) && Less(b, c) ==> Less(a, c)
    ensures a != b ==> (Less(a, b) <==> !Less(b, a))
  {
    assert a != b ==> a.priority != b.priority || a.seqNo != b.seqNo;
  }

  /** A non-empty queue has a top, and only one. */
  lemma {:induction false} TopExists(queue: multiset<Task>) returns (t: Task)
    requires queue != multiset{}
    ensures IsTop(queue, t)
    ensures forall u | IsTop(queue, u) :: u == t
    decreases |queue|
  {
    var x :| x in queue;
    var rest := queue - multiset{x};
    t := x;
    if rest != multiset{} {
      var y := TopExists(rest);
      t := if Less(x, y) then y else x;
      forall u | u in queue ensures !Less(t, u) {
        assert u == x || u in rest;
        LessIsStrictTotalOrder(x, y, u);
        LessIsStrictTotalOrder(y, u, x);
      }
    } else {
      assert queue == rest + multiset{x};
    }
    forall u | IsTop(queue, u) ensures u == t { LessIsStrictTotalOrder(u, t, u); }
  }

  /** The fields `mutex_` guards. */
  datatype Core = Core(queue: multiset<Task>, accept: bool, stopping: bool, busy: nat, nextSeq: nat)

  const NEW_CORE := Core(multiset{}, true, false, 0, 0)

  function Pushed(c: Core, priority: int): Core {
    c.(queue := c.queue + multiset{Task(priority, c.nextSeq)}, nextSeq := c.nextSeq + 1)
  }

  function Taken(c: Core, t: Task): Core {
    c.(queue := c.queue - multiset{t}, busy := c.busy + 1)
  }

  function Released(c: Core): Core
    requires c.busy > 0
  {
    c.(busy := c.busy - 1)
  }

  function Stopped(c: Core, drain: bool): Core {
    c.(accept := false, stopping := true, queue := if drain then c.queue else multiset{})
  }

  /** The predicate wait_idle waits for. */
  predicate Idle(c: Core) {
    c.queue == multiset{} && c.busy == 0
  }

  datatype PostResult = Posted | EmptyTask | ShuttingDown

  /** What a worker does once it holds the lock. */
  datatype Wakeup = MustWait | MustExit | HasTask(task: Task)

  class ThreadPool {
    const workerCount: nat
    var queue: multiset<Task>
    var accept: bool
    var stopping: bool
    var busy: nat
    var nextSeq: nat

    function View(): Core
      reads this
    {
      Core(queue, accept, stopping, busy, nextSeq)
    }

    constructor (workerCount: nat)
      ensures View() == NEW_CORE && this.workerCount == workerCount
    {
      this.workerCount := workerCount;
      queue, accept, stopping, busy, nextSeq := multiset{}, true, false, 0, 0;
    }

    /** Null stands for the std::invalid_argument thrown when there are to be no workers. */
    static method Create(workerCount: nat) returns (pool: ThreadPool?)
      ensures pool == null <==> workerCount == 0
      ensures pool != null ==> fresh(pool) && pool.View() == NEW_CORE && pool.workerCount == workerCount
    {
      if workerCount == 0 {
        return null;
      }
      pool := new ThreadPool(workerCount);
    }

    predicate IsRunning()
      reads this
    {
      accept && !stopping
    }

    /** post: `callable` is false for an empty std::function. */
    method Post(callable: bool, priority: int) returns (r: PostResult)
      modifies this
      ensures r == if !callable then EmptyTask
                   else if !old(IsRunning()) then ShuttingDown else Posted
      ensures View() == if r == Posted then Pushed(old(View()), priority) else old(View())
    {
      if !callable {
        return EmptyTask;
      }
      if !accept || stopping {
        return ShuttingDown;
      }
      queue := queue + multiset{Task(priority, nextSeq)};
      nextSeq := nextSeq + 1;
      return Posted;
    }

    /** The first critical section of worker_loop, from a return of cv_.wait's lock to `++busy_`. */
    method Acquire() returns (r: Wakeup)
      modifies this
      ensures r == MustWait <==> !old(stopping) && old(queue) == multiset{}
      ensures r == MustExit <==> old(stopping) && old(queue) == multiset{}
      ensures r.HasTask? ==> IsTop(old(queue), r.task)
      ensures View() == if r.HasTask? then Taken(old(View()), r.task) else old(View())
    {
      if !(stopping || queue != multiset{}) {
        return MustWait;
      }
      if stopping && queue == multiset{} {
        return MustExit;
      }
      ghost var _ := TopExists(queue);
      var t :| t in queue && IsTop(queue, t);
      queue := queue - multiset{t};
      busy := busy + 1;
      return HasTask(t);
    }

    /** The second critical section of worker_loop: whether it calls idle_cv_.notify_all. */
    method Release() returns (notifyIdle: bool)
      requires busy > 0
      modifies this
      ensures View() == Released(old(View()))
      ensures notifyIdle <==> Idle(View())
    {
      busy := busy - 1;
      notifyIdle := queue == multiset{} && busy == 0;
    }

    /** The critical section of shutdown; only the first call goes on to notify and join. */
    method Shutdown(drain: bool) returns (first: bool)
      modifies this
      ensures first <==> !old(stopping)
      ensures View() == if first then Stopped(old(View()), drain) else old(View())
    {
      if stopping {
        return false;
      }
      accept := false;
      stopping := true;
      if !drain {
        while queue != multiset{}
          invariant View() == Stopped(old(View()), true).(queue := queue)
          decreases |queue|
        {
          ghost var _ := TopExists(queue);
          var t :| t in queue && IsTop(queue, t);
          queue := queue - multiset{t};
        }
      }
      return true;
    }
  }
}
