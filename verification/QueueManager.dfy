/** Named priority queues with an index from job ids to queue names.
    Models internal/jobcenter/queuemanager.go. */
module QueueManager {
  import opened Wrappers
  import opened HeapOrder
  import opened MaxHeap

  /** Queue names and job contents are only compared and copied. */
  type QueueName(==, !new)
  type Content(==, !new)

  datatype Job = Job(priority: int, id: int, content: Content, queue: QueueName)

  const HIGHER: (Job, Job) -> bool := (a: Job, b: Job) => a.priority > b.priority
  const HAS_ID: (int, Job) -> bool := (id: int, job: Job) => id == job.id

  lemma HigherIsWeakOrder()
    ensures StrictWeakOrder(HIGHER)
  {
  }

  /** Every job is stored under its own id. */
  ghost predicate Keyed(stored: map<int, Job>) {
    forall id :: id in stored ==> stored[id].id == id
  }

  /** The stored jobs that name queue q, each once. */
  ghost function JobsOf(stored: map<int, Job>, q: QueueName): multiset<Job> {
    multiset(set id | id in stored && stored[id].queue == q :: stored[id])
  }

  lemma JobsOfMember(stored: map<int, Job>, q: QueueName, job: Job)
    requires Keyed(stored)
    ensures job in JobsOf(stored, q) <==> job.id in stored && stored[job.id] == job && job.queue == q
    ensures JobsOf(stored, q)[job] <= 1
  {
  }

  lemma JobsOfPut(stored: map<int, Job>, q: QueueName, job: Job)
    requires Keyed(stored) && job.id !in stored
    ensures JobsOf(stored[job.id := job], q) ==
            JobsOf(stored, q) + (if q == job.queue then multiset{job} else multiset{})
  {
    var want := JobsOf(stored, q) + (if q == job.queue then multiset{job} else multiset{});
    forall x: Job
      ensures JobsOf(stored[job.id := job], q)[x] == want[x]
    {
      JobsOfMember(stored, q, x);
      JobsOfMember(stored[job.id := job], q, x);
    }
  }

  lemma JobsOfRemove(stored: map<int, Job>, q: QueueName, id: int)
    requires Keyed(stored) && id in stored
    ensures JobsOf(stored - {id}, q) ==
            JobsOf(stored, q) - (if q == stored[id].queue then multiset{stored[id]} else multiset{})
  {
    var want := JobsOf(stored, q) - (if q == stored[id].queue then multiset{stored[id]} else multiset{});
    forall x: Job
      ensures JobsOf(stored - {id}, q)[x] == want[x]
    {
      JobsOfMember(stored, q, x);
      JobsOfMember(stored - {id}, q, x);
    }
  }

  /** No stored job in the queue has a higher priority than best. */
  ghost predicate Beats(stored: map<int, Job>, queue: QueueName, best: Option<Job>) {
    forall id :: id in stored && stored[id].queue == queue ==>
      best.Some? && stored[id].priority <= best.value.priority
  }

  class QueueManager {
    var queues: map<QueueName, MaxHeap<Job, int>>
    var jobLocations: map<int, QueueName>
    var currentId: int

    /** The jobs in the queues, by id; the heap objects and the queue each one serves. */
    ghost var stored: map<int, Job>
    ghost var heaps: map<object, QueueName>

    /** jobLocations is the exact index of the heaps: every stored job, and nothing else, is in the
        heap of the queue it names, once, and is listed under that queue. */
    ghost predicate Valid()
      reads this`queues, this`jobLocations, this`stored, this`heaps, heaps.Keys
    {
      Shape() && Contents() && IndexOf(stored)
    }

    /** Every queue has a heap of its own. */
    ghost predicate Shape()
      reads this`queues, this`heaps, heaps.Keys
    {
      && this !in heaps
      && (forall q :: q in queues ==> queues[q] in heaps && heaps[queues[q]] == q)
      && (forall q :: q in queues ==> queues[q].greaterThan == HIGHER && queues[q].identify == HAS_ID)
      && (forall q :: q in queues ==> queues[q].Valid())
    }

    /** The heap of a queue holds the stored jobs that name the queue. */
    ghost predicate Contents()
      reads this`queues, this`stored, set q | q in queues :: queues[q]
    {
      forall q :: q in queues ==> multiset(queues[q].data) == JobsOf(stored, q)
    }

    /** jobLocations is the index of the given jobs. */
    ghost predicate IndexOf(jobs: map<int, Job>)
      reads this`queues, this`jobLocations
    {
      && Keyed(jobs)
      && (forall id :: id in jobs ==> jobs[id].queue in queues)
      && (forall id :: id in jobLocations <==> id in jobs)
      && (forall id :: id in jobs ==> jobLocations[id] == jobs[id].queue)
    }

    constructor ()
      ensures Valid() && heaps == map[] && stored == map[] && currentId == 0
    {
      queues, jobLocations, currentId, stored, heaps := map[], map[], 0, map[], map[];
    }

    method GetNextId() returns (id: int)
      modifies this`currentId
      ensures id == currentId == old(currentId) + 1
      ensures old(Valid()) ==> Valid()
    {
      currentId := currentId + 1;
      return currentId;
    }

    method JobExists(jobId: int) returns (found: bool)
      requires Valid()
      ensures found <==> jobId in stored
    {
      found := jobId in jobLocations;
    }

    /** Callers put a job into the queue it names, under an id that is not stored. */
    method PutJob(queueName: QueueName, job: Job)
      requires Valid()
      requires job.queue == queueName && job.id !in stored
      modifies this, heaps.Keys
      ensures Valid() && fresh(heaps.Keys - old(heaps.Keys))
      ensures stored == old(stored)[job.id := job] && currentId == old(currentId)
    {
      hide StrictWeakOrder, IsHeap, JobsOf;
      EnsureQueue(queueName);
      Enqueue(queueName, job);
    }

    /** A queue that does not exist is created empty. */
    method EnsureQueue(queueName: QueueName)
      requires Valid()
      modifies this`queues, this`heaps
      ensures Valid() && queueName in queues
      ensures fresh(heaps.Keys - old(heaps.Keys))
    {
      if queueName !in queues {
        var heap := NewQueue();
        AddQueue(queueName, heap);
      }
    }

    method AddQueue(queueName: QueueName, heap: MaxHeap<Job, int>)
      requires Valid() && queueName !in queues && heap as object !in heaps && heap as object != this
      requires heap.Valid() && heap.greaterThan == HIGHER && heap.identify == HAS_ID && heap.data == []
      modifies this`queues, this`heaps
      ensures Valid() && queueName in queues && heaps == old(heaps)[heap as object := queueName]
    {
      hide StrictWeakOrder, IsHeap, JobsOf, Keyed;
      NothingNames(queueName);
      queues := queues[queueName := heap];
      heaps := heaps[heap := queueName];
    }

    static method NewQueue() returns (heap: MaxHeap<Job, int>)
      ensures fresh(heap) && heap.Valid() && heap.greaterThan == HIGHER && heap.identify == HAS_ID
      ensures heap.data == []
    {
      HigherIsWeakOrder();
      heap := new MaxHeap<Job, int>(HIGHER, HAS_ID);
    }

    lemma NothingNames(q: QueueName)
      requires Valid() && q !in queues
      ensures JobsOf(stored, q) == multiset{}
    {
      forall x: Job
        ensures JobsOf(stored, q)[x] == 0
      {
        JobsOfMember(stored, q, x);
      }
    }

    method Enqueue(queueName: QueueName, job: Job)
      requires Valid() && queueName in queues
      requires job.queue == queueName && job.id !in stored
      modifies queues[queueName], this`jobLocations, this`stored
      ensures Valid() && stored == old(stored)[job.id := job]
    {
      hide StrictWeakOrder, IsHeap, JobsOf, Keyed;
      PushTo(queueName, job);
      forall q | q in queues
        ensures multiset(queues[q].data) == JobsOf(stored[job.id := job], q)
      {
        JobsOfPut(stored, q, job);
      }
      ListJob(queueName, job);
    }

    /** The index entry of a job that has been pushed. */
    method ListJob(queueName: QueueName, job: Job)
      requires Shape() && IndexOf(stored) && queueName in queues && job.queue == queueName
      requires forall q :: q in queues ==> multiset(queues[q].data) == JobsOf(stored[job.id := job], q)
      modifies this`jobLocations, this`stored
      ensures Valid() && stored == old(stored)[job.id := job]
    {
      hide StrictWeakOrder, IsHeap, JobsOf;
      jobLocations := jobLocations[job.id := queueName];
      stored := stored[job.id := job];
    }

    method PushTo(queueName: QueueName, job: Job)
      requires Shape() && queueName in queues
      modifies queues[queueName]
      ensures Shape() && multiset(queues[queueName].data) == multiset(old(queues[queueName].data)) + multiset{job}
      ensures forall q :: q in queues && q != queueName ==> queues[q].data == old(queues[q].data)
    {
      hide StrictWeakOrder, IsHeap;
      queues[queueName].Push(job);
    }

    /** Removes and returns a job of maximal priority among all jobs in the named queues. */
    method GetPriorityJob(names: seq<QueueName>) returns (result: Option<Job>)
      requires Valid()
      modifies this, heaps.Keys
      ensures Valid() && heaps == old(heaps) && currentId == old(currentId)
      ensures result == None ==> stored == old(stored) && forall id :: id in stored ==> stored[id].queue !in names
      ensures result.Some? ==>
                var job := result.value;
                && job.id in old(stored) && old(stored)[job.id] == job && job.queue in names
                && (forall id :: id in old(stored) && old(stored)[id].queue in names ==>
                      old(stored)[id].priority <= job.priority)
                && stored == old(stored) - {job.id}
    {
      hide StrictWeakOrder, IsHeap, JobsOf;
      if |names| == 0 {
        return None;
      }
      var candidate: Option<Job> := None;
      for i := 0 to |names|
        modifies {}
        invariant candidate.Some? ==> candidate.value.queue in names && IsHead(candidate.value)
        invariant forall k :: 0 <= k < i ==> Beats(stored, names[k], candidate)
      {
        var queue := names[i];
        if queue !in queues {
          continue;
        }
        var job := PeekAt(queue);
        if job == None {
          continue;
        }
        if candidate == None || job.value.priority > candidate.value.priority {
          candidate := job;
          continue;
        }
      }
      if candidate == None {
        return None;
      }
      TakeHead(candidate.value);
      return candidate;
    }

    /** The job is what Pop of the queue it names would return. */
    ghost predicate IsHead(job: Job)
      reads this`queues, this`stored, set q | q in queues :: queues[q]
    {
      && job.id in stored && stored[job.id] == job
      && job.queue in queues && queues[job.queue].data != [] && queues[job.queue].data[0] == job
    }

    method PeekAt(queue: QueueName) returns (top: Option<Job>)
      requires Valid() && queue in queues
      ensures top.Some? ==> top.value.queue == queue && IsHead(top.value)
      ensures Beats(stored, queue, top)
    {
      top := queues[queue].Peek();
      forall id | id in stored && stored[id].queue == queue
        ensures top.Some? && stored[id].priority <= top.value.priority
      {
        JobsOfMember(stored, queue, stored[id]);
        assert stored[id] in queues[queue].data;
        assert !HIGHER(stored[id], top.value);
      }
      if top.Some? {
        JobsOfMember(stored, queue, top.value);
        assert top.value in multiset(queues[queue].data);
      }
    }

    /** The index entry goes first, then the job: Pop removes the very job that was peeked. */
    method TakeHead(candidate: Job)
      requires Valid() && IsHead(candidate)
      modifies queues[candidate.queue], this`jobLocations, this`stored
      ensures Valid() && stored == old(stored) - {candidate.id}
    {
      hide StrictWeakOrder, IsHeap, JobsOf, Keyed;
      Unlist(candidate.id);
      PopFrom(candidate.queue);
      forall q | q in queues
        ensures multiset(queues[q].data) == JobsOf(stored - {candidate.id}, q)
      {
        JobsOfRemove(stored, q, candidate.id);
      }
      Forget(candidate.id);
    }

    /** The index entry of a job goes. */
    method Unlist(jobId: int)
      requires IndexOf(stored)
      modifies this`jobLocations
      ensures IndexOf(stored - {jobId})
    {
      jobLocations := jobLocations - {jobId};
    }

    /** A job that has left its heap and the index is no longer stored. */
    ghost method Forget(jobId: int)
      requires Shape() && IndexOf(stored - {jobId})
      requires forall q :: q in queues ==> multiset(queues[q].data) == JobsOf(stored - {jobId}, q)
      modifies this`stored
      ensures Valid() && stored == old(stored) - {jobId}
    {
      hide StrictWeakOrder, IsHeap, JobsOf, Keyed;
      stored := stored - {jobId};
    }

    method PopFrom(queueName: QueueName)
      requires Shape() && queueName in queues && queues[queueName].data != []
      modifies queues[queueName]
      ensures Shape()
      ensures multiset(queues[queueName].data) ==
              multiset(old(queues[queueName].data)) - multiset{old(queues[queueName].data[0])}
      ensures forall q :: q in queues && q != queueName ==> queues[q].data == old(queues[q].data)
    {
      hide StrictWeakOrder, IsHeap;
      var popped := queues[queueName].Pop();
    }

    /** Removes the job with the given id if it is in a queue. */
    method DeleteJob(jobId: int) returns (deleted: bool)
      requires Valid()
      modifies this, heaps.Keys
      ensures Valid() && heaps == old(heaps) && currentId == old(currentId)
      ensures deleted <==> jobId in old(stored)
      ensures stored == old(stored) - {jobId}
    {
      hide StrictWeakOrder, IsHeap, JobsOf;
      if jobId !in jobLocations {
        return false;
      }
      var queueName := jobLocations[jobId];
      var removed := DeleteFrom(queueName, jobId);
      if !removed {
        assert false;  // the failed-to-delete branch of the source is never taken
        return false;
      }
      DropIfEmpty(queueName);
      return true;
    }

    /** The heap finds the stored job under its id, and the index entry goes. */
    method DeleteFrom(queueName: QueueName, jobId: int) returns (removed: bool)
      requires Valid() && jobId in stored && stored[jobId].queue == queueName
      modifies queues[queueName], this`jobLocations, this`stored
      ensures Valid() && removed && stored == old(stored) - {jobId}
    {
      hide StrictWeakOrder, IsHeap, JobsOf, Keyed;
      UniqueMatch(jobId);
      removed := DeleteIn(queueName, jobId);
      forall q | q in queues
        ensures multiset(queues[q].data) == JobsOf(stored - {jobId}, q)
      {
        JobsOfRemove(stored, q, jobId);
      }
      Unlist(jobId);
      Forget(jobId);
    }

    method DeleteIn(queueName: QueueName, jobId: int) returns (removed: bool)
      requires Shape() && queueName in queues
      modifies queues[queueName]
      ensures Shape()
      ensures var data := old(queues[queueName].data);
              var k := FirstMatch(HAS_ID, jobId, data);
              (removed <==> k >= 0) &&
              (removed ==> multiset(queues[queueName].data) == multiset(data) - multiset{data[k]})
      ensures forall q :: q in queues && q != queueName ==> queues[q].data == old(queues[q].data)
    {
      hide StrictWeakOrder, IsHeap;
      removed := queues[queueName].Delete(jobId);
    }

    /** The first match of an id in the heap that the index names is the stored job. */
    lemma UniqueMatch(jobId: int)
      requires Valid() && jobId in stored
      ensures var data := queues[stored[jobId].queue].data;
              var k := FirstMatch(HAS_ID, jobId, data);
              k >= 0 && data[k] == stored[jobId]
    {
      var q := stored[jobId].queue;
      var data := queues[q].data;
      JobsOfMember(stored, q, stored[jobId]);
      assert stored[jobId] in multiset(data);
      var i :| 0 <= i < |data| && data[i] == stored[jobId];
      assert HAS_ID(jobId, data[i]);
      var k := FirstMatch(HAS_ID, jobId, data);
      JobsOfMember(stored, q, data[k]);
      assert data[k] in multiset(data);
    }

    /** A queue that Delete has emptied is dropped. */
    method DropIfEmpty(queueName: QueueName)
      requires Valid() && queueName in queues
      modifies this`queues
      ensures Valid()
      ensures queues == if old(queues[queueName].data) == [] then old(queues) - {queueName} else old(queues)
    {
      var size := queues[queueName].Size();
      if size == 0 {
        forall id | id in stored
          ensures stored[id].queue != queueName
        {
          JobsOfMember(stored, stored[id].queue, stored[id]);
          assert multiset(queues[stored[id].queue].data)[stored[id]] > 0;
        }
        queues := queues - {queueName};
      }
    }
  }
}
