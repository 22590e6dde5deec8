// The run queue and the zombie queue of src/thread.c, updated in place.
module Scheduler {
  import opened Machine
  import opened Sequences
  import opened ThreadList
  import R = RoundRobin

  class Scheduler {
    const runQueue: Thread
    const killQueue: Thread
    var current: Thread
    ghost var queue: seq<Thread>
    ghost var zombies: seq<Thread>

    ghost function Threads(): set<Thread>
      reads this
    {
      {runQueue, killQueue, current} + (set t | t in queue) + (set t | t in zombies)
    }

    /** The two rings share no thread, and each thread on them has the status of its ring. */
    ghost predicate Rings()
      reads this, Threads()
    {
      && runQueue != killQueue && runQueue.status == IDLE
      && Circular(runQueue, queue) && Circular(killQueue, zombies)
      && killQueue !in queue && runQueue !in zombies
      && (forall t | t in queue :: t !in zombies && t.status == RUN)
      && (forall t | t in zombies :: t.status == ZONBIE)
    }

    /** current is on neither queue; it is the head of the run queue while the processor idles. */
    ghost predicate Running()
      reads this, Threads()
    {
      && Rings() && current != killQueue && current !in queue && current !in zombies
      && (current != runQueue ==> current.status != IDLE)
    }

    ghost predicate Valid()
      reads this, Threads()
    {
      Running() && (current != runQueue ==> current.status == RUN)
    }

    ghost function Now(): R.State<Thread>
      reads this
    {
      R.State(if current == runQueue then None else Some(current), queue, zombies)
    }

    /** init_thread: two empty queues and the first thread running. */
    constructor ()
      ensures Valid() && Now() == R.State(Some(current), [], []) && fresh(Threads())
    {
      runQueue := new Thread(IDLE);
      killQueue := new Thread(IDLE);
      current := new Thread(RUN);
      queue, zombies := [], [];
      new;
      runQueue.InitList();
      killQueue.InitList();
    }

    /** list_add_tail to the run queue. */
    method PutLast(t: Thread)
      requires Rings() && t.status == RUN && t != runQueue && t != killQueue && t !in queue && t !in zombies
      modifies this`queue, Threads(), t
      ensures Rings() && queue == old(queue) + [t] && t.status == RUN
      ensures forall x | x in old(Threads()) :: x.status == old(x.status)
    {
      AtIn(runQueue, queue, |queue|);
      ListAddTail(t, runQueue, queue);
      assert forall z | z == killQueue || z in zombies :: z.next == old(z.next) && z.prev == old(z.prev);
      queue := queue + [t];
    }

    /** list_add_tail to the zombie queue. */
    method PutAway(t: Thread)
      requires Rings() && t.status == ZONBIE && t != runQueue && t != killQueue && t !in queue && t !in zombies
      modifies this`zombies, Threads(), t
      ensures Rings() && zombies == old(zombies) + [t]
    {
      AtIn(killQueue, zombies, |zombies|);
      ListAddTail(t, killQueue, zombies);
      assert forall q | q == runQueue || q in queue :: q.next == old(q.next) && q.prev == old(q.prev);
      zombies := zombies + [t];
    }

    /** list_del of the first thread of the run queue. */
    method TakeFirst(t: Thread)
      requires Rings() && queue != [] && t == queue[0]
      modifies this`queue, Threads()
      ensures Rings() && queue == old(queue)[1..] && t !in queue && t.status == RUN
    {
      AtIn(runQueue, queue, 2);
      assert Without(queue, 0) == queue[1..];
      ListDel(t, runQueue, queue, 0);
      assert forall z | z == killQueue || z in zombies :: z.next == old(z.next) && z.prev == old(z.prev);
      queue := queue[1..];
    }

    /** list_del of the first zombie. */
    method TakeZombie(t: Thread)
      requires Rings() && zombies != [] && t == zombies[0]
      modifies this`zombies, Threads()
      ensures Rings() && zombies == old(zombies)[1..] && t !in zombies
      ensures forall x | x in old(Threads()) :: x.status == old(x.status)
    {
      AtIn(killQueue, zombies, 2);
      assert Without(zombies, 0) == zombies[1..];
      ListDel(t, killQueue, zombies, 0);
      assert forall q | q == runQueue || q in queue :: q.next == old(q.next) && q.prev == old(q.prev);
      zombies := zombies[1..];
    }

    /** Thread: a new runnable thread at the tail of the run queue. */
    method Create() returns (t: Thread)
      requires Valid()
      modifies this`queue, Threads()
      ensures Valid() && fresh(t) && Now() == R.Next(old(Now()), R.Create(t))
      ensures queue == old(queue) + [t] && zombies == old(zombies) && t.status == RUN
    {
      t := new Thread(RUN);
      PutLast(t);
    }

    /** The current thread goes to the queue that its status names, if any. */
    method PutCurrent()
      requires Running()
      modifies this`queue, this`zombies, Threads()
      ensures Rings()
      ensures queue == if old(current.status) == RUN then old(queue) + [current] else old(queue)
      ensures zombies == if old(current.status) == ZONBIE then old(zombies) + [current] else old(zombies)
    {
      if current.status == RUN {
        PutLast(current);
      } else if current.status == ZONBIE {
        PutAway(current);
      }
    }

    /** The first runnable thread leaves the run queue; all threads there are runnable, so it is the first of all. */
    method TakeNext() returns (tmp: Thread)
      requires Rings()
      modifies this`queue, Threads()
      ensures Rings() && tmp !in queue && tmp !in zombies && tmp != killQueue
      ensures if old(queue) == [] then tmp == runQueue && queue == []
        else tmp != runQueue && tmp.status == RUN && old(queue) == [tmp] + queue
    {
      tmp := FirstRunnable(runQueue, queue);
      ghost var j :| FirstToRun(runQueue, queue, tmp, j);
      AtIn(runQueue, queue, 1);
      if tmp != runQueue {
        TakeFirst(tmp);
      }
    }

    /** schedule. switch_to hands the processor to the thread found, or leaves it idle. */
    method Schedule()
      requires Running()
      modifies this`current, this`queue, this`zombies, Threads()
      ensures Valid()
      ensures Now() == R.Next(old(Now()), if old(current.status == ZONBIE) && old(current) != runQueue then R.Exit
        else R.Schedule)
      ensures old(current) != runQueue && old(current.status) == RUN ==>
        [current] + queue == old(queue) + [old(current)] && zombies == old(zombies)
      ensures old(current) != runQueue && old(current.status) == ZONBIE ==> zombies == old(zombies) + [old(current)]
      ensures old(current) == runQueue || old(current.status) == ZONBIE ==>
        if old(queue) == [] then current == runQueue && queue == [] else [current] + queue == old(queue)
      ensures old(current) == runQueue ==> zombies == old(zombies)
    {
      PutCurrent();
      ghost var q, z := queue, zombies;
      current := TakeNext();
      assert Now() == R.Dispatched(q, z) by {
        assert q != [] ==> q[0] == current && q[1..] == queue;
      }
    }

    /** __exit, of a thread. */
    method Exit()
      requires Valid() && current != runQueue
      modifies this`current, this`queue, this`zombies, Threads()
      ensures Valid() && Now() == R.Next(old(Now()), R.Exit)
      ensures zombies == old(zombies) + [old(current)] && old(current) !in queue && current != old(current)
      ensures if old(queue) == [] then current == runQueue && queue == [] else [current] + queue == old(queue)
    {
      current.status := ZONBIE;
      Schedule();
    }

    /** One turn of the loop of kill_zombies. */
    method ReapOne() returns (tmp: Thread)
      requires Valid() && zombies != []
      modifies this`zombies, Threads()
      ensures Valid() && queue == old(queue) && Threads() <= old(Threads())
      ensures old(zombies) == [tmp] + zombies
    {
      FirstOf(killQueue, zombies);
      tmp := killQueue.next;
      TakeZombie(tmp);
    }

    /** kill_zombies: every zombie is unlinked and freed. */
    method KillZombies() returns (ghost freed: seq<Thread>)
      requires Valid()
      modifies this`zombies, Threads()
      ensures Valid() && freed == old(zombies) && Now() == R.Next(old(Now()), R.Reap)
      ensures zombies == [] && queue == old(queue)
    {
      freed := [];
      FirstOf(killQueue, zombies);
      while killQueue.next != killQueue
        invariant Valid() && queue == old(queue) && Threads() <= old(Threads())
        invariant old(zombies) == freed + zombies && (zombies == [] <==> killQueue.next == killQueue)
        decreases |zombies|
      {
        var tmp := ReapOne();
        freed := freed + [tmp];
        FirstOf(killQueue, zombies);
      }
    }

    /** idle */
    method Idle()
      requires Valid()
      modifies this`current, this`queue, this`zombies, Threads()
      ensures Valid() && Now() == R.Next(R.Next(old(Now()), R.Reap), R.Schedule) && zombies == []
    {
      ghost var freed := KillZombies();
      Schedule();
    }
  }
}
