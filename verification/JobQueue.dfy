/**
 The linked job queue of the thread pool: singly linked from the front to the rear through
 `prev`, with the binary semaphore that its operations post.
 */
module JobQueue {
  import ThreadPool

  class Semaphore {
    var v: nat

    constructor ()
      ensures v == 0
    {
      v := 0;
    }

    method Post()
      modifies this
      ensures v == 1
    {
      v := 1;
    }
  }

  class JobNode {
    const job: ThreadPool.Job
    var prev: JobNode?

    constructor (job: ThreadPool.Job)
      ensures this.job == job && prev == null
    {
      this.job := job;
      prev := null;
    }
  }

  ghost function Jobs(nodes: seq<JobNode>): (jobs: seq<ThreadPool.Job>)
    ensures |jobs| == |nodes|
    ensures forall i | 0 <= i < |nodes| :: jobs[i] == nodes[i].job
  {
    seq(|nodes|, i requires 0 <= i < |nodes| => nodes[i].job)
  }

  class Queue {
    var front: JobNode?
    var rear: JobNode?
    var len: nat
    const hasJobs: Semaphore
    /** The nodes from front to rear. */
    ghost var spine: seq<JobNode>

    ghost predicate Valid()
      reads this, spine
    {
      && len == |spine|
      && (forall i, j | 0 <= i < j < |spine| :: spine[i] != spine[j])
      && (forall i | 0 <= i < |spine| - 1 :: spine[i].prev == spine[i + 1])
      && front == (if spine == [] then null else spine[0])
      && (spine != [] ==> rear == spine[|spine| - 1] && rear.prev == null)
    }

    ghost function Contents(): (jobs: seq<ThreadPool.Job>)
      reads this
    {
      Jobs(spine)
    }

    constructor ()
      ensures Valid() && Contents() == [] && hasJobs.v == 0 && fresh(hasJobs)
    {
      front := null;
      rear := null;
      len := 0;
      hasJobs := new Semaphore();
      spine := [];
    }

    method Push(node: JobNode)
      requires Valid() && node !in spine
      modifies this, rear, node, hasJobs
      ensures Valid() && Contents() == old(Contents()) + [node.job]
      ensures spine == old(spine) + [node]
      ensures hasJobs.v == 1
    {
      node.prev := null;
      if len == 0 {
        front := node;
        rear := node;
      } else {
        rear.prev := node;
        rear := node;
      }
      len := len + 1;
      spine := spine + [node];
      hasJobs.Post();
    }

    /** An empty queue yields nothing; the post for the remaining jobs is made only if any remain. */
    method Pull() returns (r: JobNode?)
      requires Valid()
      modifies this, hasJobs
      ensures Valid()
      ensures r == null <==> old(Contents()) == []
      ensures r != null ==> r.job == old(Contents())[0] && Contents() == old(Contents())[1..]
      ensures r != null ==> r !in spine
      ensures r == null ==> Contents() == []
      ensures hasJobs.v == if |old(Contents())| > 1 then 1 else old(hasJobs.v)
    {
      r := front;
      if len == 0 {
      } else if len == 1 {
        front := null;
        rear := null;
        len := 0;
        spine := [];
      } else {
        front := r.prev;
        len := len - 1;
        spine := spine[1..];
        hasJobs.Post();
      }
    }
  }
}
