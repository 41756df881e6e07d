/**
 * The queue of src/data_structures/thread_safe_queue.h, as the sequential
 * FIFO that its single mutex makes of it: every public operation holds the
 * lock for its whole effect on `queue_`, so the operations happen one after
 * the other and each one is a step on the sequence of queued elements.
 */
module ThreadSafeQueues {
  import opened Wrappers

  class ThreadSafeQueue<T> {
    /** `queue_`: the elements in push order, the head first. */
    var queue: seq<T>

    /** ThreadSafeQueue() (thread_safe_queue.h:27): an empty queue. */
    constructor ()
      ensures queue == []
    {
      queue := [];
    }

    /** Push (thread_safe_queue.h:43-49): the value joins at the tail. */
    method Push(value: T)
      modifies this
      ensures queue == old(queue) + [value]
    {
      queue := queue + [value];
    }

    /** PopUnlocked (thread_safe_queue.h:118-122): take the head; the caller has checked there is one. */
    method PopUnlocked() returns (value: T)
      requires queue != []
      modifies this
      ensures value == old(queue)[0] && queue == old(queue)[1..]
    {
      value := queue[0];
      queue := queue[1..];
    }

    /** TryPop (thread_safe_queue.h:55-62): the head if there is one, otherwise nothing and no change. */
    method TryPop() returns (value: Option<T>)
      modifies this
      ensures old(queue) == [] ==> value == None && queue == []
      ensures old(queue) != [] ==> value == Some(old(queue)[0]) && queue == old(queue)[1..]
    {
      if queue == [] {
        return None;
      }
      var head := PopUnlocked();
      return Some(head);
    }

    /**
     * Pop (thread_safe_queue.h:68-72). Its wait returns once the queue is
     * non-empty; run alone, a call only returns when that already holds.
     */
    method Pop() returns (value: T)
      requires queue != []
      modifies this
      ensures value == old(queue)[0] && queue == old(queue)[1..]
    {
      value := PopUnlocked();
    }

    /**
     * PopWithTimeout (thread_safe_queue.h:80-87). With no other thread to
     * push during the wait, the timed wait ends with the queue as it was, so
     * the call is TryPop; `timeout` only bounds how long it would wait.
     */
    method PopWithTimeout(timeout: nat) returns (value: Option<T>)
      modifies this
      ensures old(queue) == [] ==> value == None && queue == []
      ensures old(queue) != [] ==> value == Some(old(queue)[0]) && queue == old(queue)[1..]
    {
      if queue == [] {
        return None;
      }
      var head := PopUnlocked();
      return Some(head);
    }

    /** Empty (thread_safe_queue.h:93-96): holds exactly when Size() is 0. */
    function Empty(): (b: bool)
      reads this
      ensures b <==> Size() == 0
    {
      queue == []
    }

    /** Size (thread_safe_queue.h:102-105): the number of queued elements. */
    function Size(): (n: nat)
      reads this
      ensures n == |queue|
    {
      |queue|
    }

    /** Clear (thread_safe_queue.h:110-114): every queued element is dropped. */
    method Clear()
      modifies this
      ensures queue == []
    {
      queue := [];
    }
  }

  /**
   * FIFO: pushing `xs` into an empty queue and then popping it empty with
   * TryPop hands back exactly `xs`, in push order, and then reports empty
   * (thread_safe_queue_test.cc:12-37).
   */
  method PushAllThenDrain<T>(xs: seq<T>) returns (ys: seq<T>, last: Option<T>)
    ensures ys == xs
    ensures last == None
  {
    var q := new ThreadSafeQueue<T>();
    for i := 0 to |xs|
      invariant q.queue == xs[..i]
    {
      q.Push(xs[i]);
    }
    ys := [];
    while !q.Empty()
      invariant ys + q.queue == xs
      decreases |q.queue|
    {
      var v := q.TryPop();
      ys := ys + [v.value];
    }
    last := q.TryPop();
  }

  /**
   * Clear leaves a queue that behaves as a fresh one: it is empty, and TryPop
   * then reports nothing (thread_safe_queue_test.cc:133-149).
   */
  method ClearThenTryPop<T>(xs: seq<T>) returns (wasEmpty: bool, size: nat, popped: Option<T>)
    ensures wasEmpty && size == 0 && popped == None
  {
    var q := new ThreadSafeQueue<T>();
    for i := 0 to |xs|
      invariant q.queue == xs[..i]
    {
      q.Push(xs[i]);
    }
    q.Clear();
    wasEmpty, size := q.Empty(), q.Size();
    popped := q.TryPop();
  }
}
