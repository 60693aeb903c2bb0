/**
 * The ready queue of mp6 (mp6 scheduler.C): a singly linked FIFO of
 * queue nodes, each holding one thread, with static head and tail
 * pointers. The statics are one ReadyQueue object; the queued threads and
 * the nodes holding them are ghost sequences in queue order.
 * resume and add enqueue a fresh node; yield dequeues the front thread and
 * dispatches to it, the dispatch being the thread it returns.
 */
module Scheduler {
  import opened Common

  /** A thread, known to the queue only by identity. */
  datatype Thread = Thread(id: nat)

  /** One queue node (the source's Queue object): a thread and the next node. */
  class Node {
    const thread: Thread
    var next: Node?

    constructor (t: Thread)
      ensures thread == t && next == null
    {
      thread := t;
      next := null;
    }
  }

  /** The static head and tail of Queue. */
  class ReadyQueue {
    var head: Node?
    var tail: Node?
    /** The nodes from head to tail. */
    ghost var nodes: seq<Node>
    /** The threads those nodes hold, front first. */
    ghost var contents: seq<Thread>

    /**
     * The nodes are distinct and linked in order from head to tail, the
     * last one ending the list; head and tail are null exactly when the
     * queue is empty.
     */
    ghost predicate Valid()
      reads this, nodes
    {
      && |nodes| == |contents|
      && (|nodes| == 0 ==> head == null && tail == null)
      && (|nodes| > 0 ==> head == nodes[0] && tail == nodes[|nodes| - 1] && nodes[|nodes| - 1].next == null)
      && (forall i :: 0 <= i < |nodes| ==> nodes[i].thread == contents[i])
      && (forall i :: 0 <= i < |nodes| - 1 ==> nodes[i].next == nodes[i + 1])
      && (forall i, j :: 0 <= i < j < |nodes| ==> nodes[i] != nodes[j])
    }

    constructor ()
      ensures Valid() && contents == [] && nodes == []
    {
      head := null;
      tail := null;
      nodes := [];
      contents := [];
    }

    /** head is null exactly when tail is. */
    lemma HeadNullIffTailNull()
      requires Valid()
      ensures head == null <==> tail == null
      ensures head == null <==> contents == []
    {
    }

    /**
     * enqueue: a node that is not queued and ends a list is linked after
     * the tail (or becomes head and tail); its thread joins the back.
     */
    method Enqueue(q: Node)
      requires Valid() && q !in nodes && q.next == null
      modifies this, tail
      ensures Valid() && nodes == old(nodes) + [q] && contents == old(contents) + [q.thread]
    {
      if head == null {
        head := q;
        tail := q;
      } else {
        tail.next := q;
        tail := q;
      }
      nodes := nodes + [q];
      contents := contents + [q.thread];
    }

    /**
     * dequeue, on a non-empty queue: the front thread is returned and the
     * rest stay in order; a one-element queue becomes empty.
     */
    method Dequeue() returns (t: Thread)
      requires Valid() && contents != []
      modifies this
      ensures Valid() && t == old(contents[0]) && contents == old(contents[1..]) && nodes == old(nodes[1..])
      ensures |old(contents)| == 1 ==> head == null && tail == null
    {
      t := head.thread;
      if head == tail {
        head := null;
        tail := null;
      } else {
        head := head.next;
      }
      nodes := nodes[1..];
      contents := contents[1..];
    }
  }

  /** The scheduler: every operation goes through the one ready queue. */
  class Scheduler {
    const queue: ReadyQueue

    constructor (q: ReadyQueue)
      ensures queue == q
    {
      queue := q;
    }

    /** resume: a fresh node for the thread is enqueued, so the thread joins the back of the queue. */
    method Resume(t: Thread)
      requires queue.Valid()
      modifies queue, queue.tail
      ensures queue.Valid() && queue.contents == old(queue.contents) + [t]
      ensures queue.tail != null && fresh(queue.tail)
    {
      var node := new Node(t);
      queue.Enqueue(node);
    }

    /** add: the same as resume. */
    method Add(t: Thread)
      requires queue.Valid()
      modifies queue, queue.tail
      ensures queue.Valid() && queue.contents == old(queue.contents) + [t]
      ensures queue.tail != null && fresh(queue.tail)
    {
      Resume(t);
    }

    /**
     * yield: on a non-empty queue the front thread is dequeued and
     * dispatched to (returned); on an empty queue nothing changes.
     */
    method Yield() returns (next: Option<Thread>)
      requires queue.Valid()
      modifies queue
      ensures queue.Valid()
      ensures if old(queue.contents) == [] then
          next.None? && queue.contents == [] && queue.head == old(queue.head) && queue.tail == old(queue.tail)
        else
          next == Some(old(queue.contents[0])) && queue.contents == old(queue.contents[1..])
    {
      if queue.head != null {
        var t := queue.Dequeue();
        next := Some(t);
      } else {
        next := None;
      }
    }

    /**
     * terminate: the thread's stack is released (not modelled) and the
     * scheduler yields, so the queue loses its front thread if it has one.
     */
    method Terminate(t: Thread) returns (next: Option<Thread>)
      requires queue.Valid()
      modifies queue
      ensures queue.Valid()
      ensures old(queue.contents) == [] ==> next.None? && queue.contents == []
      ensures old(queue.contents) != [] ==> next == Some(old(queue.contents[0])) && queue.contents == old(queue.contents[1..])
    {
      next := Yield();
    }

    /**
     * FIFO: on an empty queue, threads added one after the other are
     * dispatched by yield in the order they were added, and the queue ends
     * empty.
     */
    method AddAddYieldYield(a: Thread, b: Thread) returns (first: Option<Thread>, second: Option<Thread>)
      requires queue.Valid() && queue.contents == []
      modifies queue, queue.tail
      ensures queue.Valid() && first == Some(a) && second == Some(b) && queue.contents == []
    {
      Add(a);
      Add(b);
      first := Yield();
      second := Yield();
    }
  }
}
