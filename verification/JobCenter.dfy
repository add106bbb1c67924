/** The job center's clients and request handlers. Every handler, run without interruption, performs
    exactly its steps of JobProtocol. Models internal/jobcenter/jobcenter.go. */
module JobCenter {
  import opened Wrappers
  import opened QueueManager
  import P = JobProtocol

  /** The steps of one client one after the other, with no other client in between. */
  function Perform(sh: P.Shared, c: P.Client, ops: seq<P.Op>): Option<(P.Shared, P.Client)>
    decreases |ops|
  {
    if ops == [] then Some((sh, c))
    else if P.ClientReady(c, ops[0]) && P.SharedReady(sh, ops[0]) then
      Perform(P.Apply(sh, P.MoveOf(c, ops[0])), P.ClientAfter(c, ops[0], sh.currentId + 1), ops[1..])
    else None
  }

  /** The account of the protocol, seen from one client; others is what the other clients own. */
  ghost predicate Account(sh: P.Shared, others: int -> nat, c: P.Client) {
    && sh.currentId >= 0
    && P.ClientInv(c)
    && Keyed(sh.stored)
    && forall id: int :: P.Accounted(sh, others(id) + P.Owned(c, id), id)
  }

  lemma StepAccount(sh: P.Shared, others: int -> nat, c: P.Client, op: P.Op)
    requires Account(sh, others, c) && P.ClientReady(c, op) && P.SharedReady(sh, op)
    ensures Account(P.Apply(sh, P.MoveOf(c, op)), others, P.ClientAfter(c, op, sh.currentId + 1))
    ensures P.MoveOf(c, op).ToQueue? ==> P.MoveOf(c, op).job.id !in sh.stored
  {
    var move := P.MoveOf(c, op);
    forall id: int
      ensures P.Accounted(P.Apply(sh, move), others(id) + P.Owned(P.ClientAfter(c, op, sh.currentId + 1), id), id)
      ensures move.ToQueue? && move.job.id == id ==> id !in sh.stored
    {
      assert P.Accounted(sh, others(id) + P.Owned(c, id), id);
      P.ClientConserves(sh, c, op, id);
      P.MoveConserves(sh, others(id) + P.Owned(c, id), move, id);
    }
    P.ClientConserves(sh, c, op, 0);
  }

  lemma PerformOne(sh: P.Shared, others: int -> nat, c: P.Client, op: P.Op)
    requires Account(sh, others, c) && P.ClientReady(c, op) && P.SharedReady(sh, op)
    ensures var sh', c' := P.Apply(sh, P.MoveOf(c, op)), P.ClientAfter(c, op, sh.currentId + 1);
            Account(sh', others, c') && Perform(sh, c, [op]) == Some((sh', c'))
    ensures P.MoveOf(c, op).ToQueue? ==> P.MoveOf(c, op).job.id !in sh.stored
  {
    StepAccount(sh, others, c, op);
  }

  /** What a client lists is in no queue. */
  lemma HeldIsNotStored(sh: P.Shared, others: int -> nat, c: P.Client, id: int)
    requires Account(sh, others, c) && c.pc == P.Idle && P.IndexOfId(c.jobs, id) >= 0
    ensures id !in sh.stored
  {
    assert P.Accounted(sh, others(id) + P.Owned(c, id), id);
  }

  lemma PerformTwo(sh: P.Shared, c: P.Client, first: P.Op, second: P.Op)
    requires P.ClientReady(c, first) && P.SharedReady(sh, first)
    ensures Perform(sh, c, [first, second]) ==
            Perform(P.Apply(sh, P.MoveOf(c, first)), P.ClientAfter(c, first, sh.currentId + 1), [second])
  {
    assert [first, second][1..] == [second];
  }

  lemma AbortSteps(sh: P.Shared, others: int -> nat, c: P.Client, id: int)
    requires Account(sh, others, c) && c.pc == P.Idle && P.IndexOfId(c.jobs, id) >= 0
    ensures var job := c.jobs[P.IndexOfId(c.jobs, id)];
            var sh' := sh.(stored := sh.stored[id := job]);
            var c' := P.Client(P.RemoveAt(c.jobs, P.IndexOfId(c.jobs, id)), P.Idle);
            && job.id == id && id !in sh.stored
            && Account(sh', others, c')
            && Perform(sh, c, [P.AbortPut(id), P.AbortDrop]) == Some((sh', c'))
  {
    var job := c.jobs[P.IndexOfId(c.jobs, id)];
    PerformOne(sh, others, c, P.AbortPut(id));
    PerformTwo(sh, c, P.AbortPut(id), P.AbortDrop);
    PerformOne(sh.(stored := sh.stored[id := job]), others, c.(pc := P.Releasing(id)), P.AbortDrop);
  }

  /** The stored jobs after each job of the list has been put back. */
  function PutAll(stored: map<int, Job>, jobs: seq<Job>): map<int, Job> {
    if jobs == [] then stored
    else
      var last := jobs[|jobs| - 1];
      PutAll(stored, jobs[..|jobs| - 1])[last.id := last]
  }

  ghost predicate DistinctIds(jobs: seq<Job>) {
    forall i, j :: 0 <= i < j < |jobs| ==> jobs[i].id != jobs[j].id
  }

  /** Then each job of the list is stored as it was listed, and no other id changes. */
  lemma {:induction false} PutAllStores(stored: map<int, Job>, jobs: seq<Job>)
    requires DistinctIds(jobs)
    ensures forall k :: 0 <= k < |jobs| ==>
              jobs[k].id in PutAll(stored, jobs) && PutAll(stored, jobs)[jobs[k].id] == jobs[k]
    ensures forall id :: (forall k :: 0 <= k < |jobs| ==> jobs[k].id != id) ==>
              (id in PutAll(stored, jobs) <==> id in stored) &&
              (id in stored ==> PutAll(stored, jobs)[id] == stored[id])
  {
    if jobs != [] {
      PutAllStores(stored, jobs[..|jobs| - 1]);
    }
  }

  lemma {:induction false} CountAt(jobs: seq<Job>, k: nat)
    requires k < |jobs|
    ensures P.Count(jobs, jobs[k].id) >= 1
  {
    if k > 0 {
      CountAt(jobs[1..], k - 1);
    }
  }

  lemma {:induction false} CountedIdsDiffer(jobs: seq<Job>)
    requires forall id :: P.Count(jobs, id) <= 1
    ensures DistinctIds(jobs)
  {
    if jobs != [] {
      forall id
        ensures P.Count(jobs[1..], id) <= 1
      {
        assert P.Count(jobs, id) <= 1;
      }
      CountedIdsDiffer(jobs[1..]);
      forall j | 0 < j < |jobs|
        ensures jobs[0].id != jobs[j].id
      {
        CountAt(jobs[1..], j - 1);
        assert P.Count(jobs, jobs[0].id) <= 1;
      }
    }
  }

  /** A client lists no id twice. */
  lemma ListedOnce(sh: P.Shared, others: int -> nat, c: P.Client)
    requires Account(sh, others, c) && c.pc == P.Idle
    ensures DistinctIds(c.jobs)
  {
    forall id
      ensures P.Count(c.jobs, id) <= 1
    {
      assert P.Accounted(sh, others(id) + P.Owned(c, id), id);
    }
    CountedIdsDiffer(c.jobs);
  }

  lemma {:induction false} FirstIndex(jobs: seq<Job>, id: int, i: nat)
    requires i < |jobs| && jobs[i].id == id && forall k :: 0 <= k < i ==> jobs[k].id != id
    ensures P.IndexOfId(jobs, id) == i
  {
    if i > 0 {
      FirstIndex(jobs[1..], id, i - 1);
    }
  }

  lemma {:induction false} NoIndex(jobs: seq<Job>, id: int)
    requires forall k :: 0 <= k < |jobs| ==> jobs[k].id != id
    ensures P.IndexOfId(jobs, id) == -1
  {
    if jobs != [] {
      NoIndex(jobs[1..], id);
    }
  }

  ghost function SharedView(manager: QueueManager, deleted: set<int>): P.Shared
    reads manager`currentId, manager`stored
  {
    P.Shared(manager.currentId, manager.stored, deleted)
  }

  datatype Status = Ok | NoJob | NotControlled

  class Client {
    var jobs: seq<Job>

    constructor ()
      ensures jobs == []
    {
      jobs := [];
    }

    method HasJob(id: int) returns (job: Option<Job>)
      ensures var k := P.IndexOfId(jobs, id); job == if k == -1 then None else Some(jobs[k])
    {
      var k := Find(id);
      return if k == -1 then None else Some(jobs[k]);
    }

    method DeleteJob(id: int) returns (deleted: bool)
      modifies this
      ensures var k := P.IndexOfId(old(jobs), id);
              && (deleted <==> k >= 0)
              && jobs == if k == -1 then old(jobs) else P.RemoveAt(old(jobs), k)
    {
      var k := Find(id);
      if k == -1 {
        return false;
      }
      jobs := jobs[..k] + jobs[k + 1..];
      return true;
    }

    /** The scan that hasJob and deleteJob share. */
    method Find(id: int) returns (k: int)
      ensures k == P.IndexOfId(jobs, id)
    {
      for i := 0 to |jobs|
        invariant forall k :: 0 <= k < i ==> jobs[k].id != id
      {
        if jobs[i].id == id {
          FirstIndex(jobs, id, i);
          return i;
        }
      }
      NoIndex(jobs, id);
      return -1;
    }

    method AddJob(job: Job)
      modifies this
      ensures jobs == old(jobs) + [job]
    {
      jobs := jobs + [job];
    }

    /** The client in the protocol, between two requests. */
    function View(): P.Client
      reads this
    {
      P.Client(jobs, P.Idle)
    }

    /** When the connection ends, every job of the list goes back to its queue. */
    method ReturnAllJobs(manager: QueueManager, ghost deleted: set<int>, ghost others: int -> nat)
      requires manager.Valid() && this as object !in manager.heaps
      requires Account(SharedView(manager, deleted), others, View())
      modifies this, manager, manager.heaps.Keys
      ensures manager.Valid() && jobs == []
      ensures Account(SharedView(manager, deleted), others, P.Client([], P.Gone))
      ensures manager.stored == PutAll(old(manager.stored), old(jobs))
      ensures forall k :: 0 <= k < |old(jobs)| ==>
                old(jobs)[k].id in manager.stored && manager.stored[old(jobs)[k].id] == old(jobs)[k]
      ensures manager.currentId == old(manager.currentId)
    {
      hide QueueManager.Shape, QueueManager.Contents, QueueManager.IndexOf, P.Owned, P.ClientInv;
      ListedOnce(SharedView(manager, deleted), others, View());
      PutAllStores(manager.stored, jobs);
      StepAccount(SharedView(manager, deleted), others, View(), P.HangUp);
      assert jobs[..0] == [];
      for i := 0 to |jobs|
        invariant jobs == old(jobs)
        invariant manager.Valid() && fresh(manager.heaps.Keys - old(manager.heaps.Keys))
        invariant this as object !in manager.heaps
        invariant Account(SharedView(manager, deleted), others, P.Client(jobs, P.Returning(i)))
        invariant manager.currentId == old(manager.currentId)
        invariant manager.stored == PutAll(old(manager.stored), jobs[..i])
      {
        assert jobs[..i + 1][..i] == jobs[..i];
        ReturnOneJob(i, manager, deleted, others);
      }
      StepAccount(SharedView(manager, deleted), others, P.Client(jobs, P.Returning(|jobs|)), P.ReturnDone);
      assert jobs[..|jobs|] == jobs;
      jobs := [];
    }

    /** One turn of that loop. */
    method ReturnOneJob(i: nat, manager: QueueManager, ghost deleted: set<int>, ghost others: int -> nat)
      requires manager.Valid() && this as object !in manager.heaps && this as object != manager
      requires i < |jobs| && Account(SharedView(manager, deleted), others, P.Client(jobs, P.Returning(i)))
      modifies manager, manager.heaps.Keys
      ensures manager.Valid() && fresh(manager.heaps.Keys - old(manager.heaps.Keys))
      ensures Account(SharedView(manager, deleted), others, P.Client(jobs, P.Returning(i + 1)))
      ensures manager.stored == old(manager.stored)[jobs[i].id := jobs[i]]
      ensures manager.currentId == old(manager.currentId)
    {
      hide QueueManager.Shape, QueueManager.Contents, QueueManager.IndexOf, P.Owned, P.ClientInv;
      StepAccount(SharedView(manager, deleted), others, P.Client(jobs, P.Returning(i)), P.ReturnOne);
      manager.PutJob(jobs[i].queue, jobs[i]);
    }
  }

  method HandlePut(client: Client, priority: int, content: Content, queue: QueueName, manager: QueueManager,
                   ghost deleted: set<int>, ghost others: int -> nat) returns (id: int)
    requires manager.Valid() && client as object !in manager.heaps && client as object != manager
    requires Account(SharedView(manager, deleted), others, client.View())
    modifies manager, manager.heaps.Keys
    ensures manager.Valid() && id == manager.currentId == old(manager.currentId) + 1
    ensures manager.stored == old(manager.stored)[id := Job(priority, id, content, queue)]
    ensures var ops := [P.TakeId(priority, content, queue), P.FinishPut];
            Perform(old(SharedView(manager, deleted)), client.View(), ops) ==
            Some((SharedView(manager, deleted), client.View()))
    ensures Account(SharedView(manager, deleted), others, client.View())
  {
    hide QueueManager.Shape, QueueManager.Contents, QueueManager.IndexOf, P.Owned, P.ClientInv;
    ghost var op := P.TakeId(priority, content, queue);
    PerformOne(SharedView(manager, deleted), others, client.View(), op);
    PerformTwo(SharedView(manager, deleted), client.View(), op, P.FinishPut);
    id := manager.GetNextId();
    var newJob := Job(priority, id, content, queue);
    ghost var putting := P.Client(client.jobs, P.Putting(newJob));
    PerformOne(SharedView(manager, deleted), others, putting, P.FinishPut);
    manager.PutJob(queue, newJob);
  }

  /** One attempt of a get request; None is the answer "no-job". */
  method HandleGet(client: Client, names: seq<QueueName>, manager: QueueManager,
                   ghost deleted: set<int>, ghost others: int -> nat) returns (job: Option<Job>)
    requires manager.Valid() && client as object !in manager.heaps && client as object != manager
    requires Account(SharedView(manager, deleted), others, client.View())
    modifies client, manager, manager.heaps.Keys
    ensures manager.Valid() && Account(SharedView(manager, deleted), others, client.View())
    ensures job == None ==>
              && SharedView(manager, deleted) == old(SharedView(manager, deleted)) && client.jobs == old(client.jobs)
              && forall id :: id in manager.stored ==> manager.stored[id].queue !in names
    ensures job.Some? ==>
              && job.value.id in old(manager.stored) && old(manager.stored)[job.value.id] == job.value
              && job.value.queue in names
              && (forall id :: id in old(manager.stored) && old(manager.stored)[id].queue in names ==>
                    old(manager.stored)[id].priority <= job.value.priority)
              && manager.stored == old(manager.stored) - {job.value.id}
              && client.jobs == old(client.jobs) + [job.value] && manager.currentId == old(manager.currentId)
    ensures job.Some? ==>
              Perform(old(SharedView(manager, deleted)), old(client.View()), [P.Get(names, job.value)]) ==
              Some((SharedView(manager, deleted), client.View()))
  {
    hide QueueManager.Shape, QueueManager.Contents, QueueManager.IndexOf, P.Owned, P.ClientInv;
    ghost var before := SharedView(manager, deleted);
    job := manager.GetPriorityJob(names);
    if job == None {
      return;
    }
    PerformOne(before, others, client.View(), P.Get(names, job.value));
    client.AddJob(job.value);
  }

  method HandleAbort(client: Client, id: int, manager: QueueManager,
                     ghost deleted: set<int>, ghost others: int -> nat) returns (status: Status)
    requires manager.Valid() && client as object !in manager.heaps && client as object != manager
    requires Account(SharedView(manager, deleted), others, client.View())
    modifies client, manager, manager.heaps.Keys
    ensures manager.Valid() && Account(SharedView(manager, deleted), others, client.View())
    ensures status == Ok <==> P.IndexOfId(old(client.jobs), id) >= 0
    ensures status == Ok ==>
              var k := P.IndexOfId(old(client.jobs), id);
              && id !in old(manager.stored)
              && manager.stored == old(manager.stored)[id := old(client.jobs)[k]]
              && client.jobs == old(client.jobs)[..k] + old(client.jobs)[k + 1..]
    ensures status == Ok ==>
              Perform(old(SharedView(manager, deleted)), old(client.View()), [P.AbortPut(id), P.AbortDrop]) ==
              Some((SharedView(manager, deleted), client.View()))
    ensures status != Ok ==>
              SharedView(manager, deleted) == old(SharedView(manager, deleted)) && client.jobs == old(client.jobs)
    ensures status == NotControlled ==> id in manager.stored
    ensures status == NoJob ==> id !in manager.stored
  {
    hide QueueManager.Shape, QueueManager.Contents, QueueManager.IndexOf, P.Owned, P.ClientInv;
    var job := client.HasJob(id);
    var jobExists := manager.JobExists(id);
    if job.Some? {
      ReleaseJob(client, job.value, manager, deleted, others);
      return Ok;
    } else if jobExists {
      return NotControlled;
    } else {
      return NoJob;
    }
  }

  /** handleAbort for a job that the client holds. */
  method ReleaseJob(client: Client, job: Job, manager: QueueManager,
                    ghost deleted: set<int>, ghost others: int -> nat)
    requires manager.Valid() && client as object !in manager.heaps && client as object != manager
    requires Account(SharedView(manager, deleted), others, client.View())
    requires var k := P.IndexOfId(client.jobs, job.id); k >= 0 && client.jobs[k] == job
    modifies client, manager, manager.heaps.Keys
    ensures manager.Valid() && Account(SharedView(manager, deleted), others, client.View())
    ensures job.id !in old(manager.stored) && manager.stored == old(manager.stored)[job.id := job]
    ensures client.jobs == P.RemoveAt(old(client.jobs), P.IndexOfId(old(client.jobs), job.id))
    ensures Perform(old(SharedView(manager, deleted)), old(client.View()), [P.AbortPut(job.id), P.AbortDrop]) ==
            Some((SharedView(manager, deleted), client.View()))
  {
    hide QueueManager.Shape, QueueManager.Contents, QueueManager.IndexOf, P.Owned, P.ClientInv;
    ghost var sh, c := SharedView(manager, deleted), client.View();
    AbortSteps(sh, others, c, job.id);
    manager.PutJob(job.queue, job);
    var dropped := client.DeleteJob(job.id);
    assert SharedView(manager, deleted) == sh.(stored := sh.stored[job.id := job]);
  }

  /** deleted' is deleted with the id, if a job was deleted. */
  method HandleDelete(client: Client, id: int, manager: QueueManager,
                      ghost deleted: set<int>, ghost others: int -> nat)
    returns (status: Status, ghost deleted': set<int>)
    requires manager.Valid() && client as object !in manager.heaps && client as object != manager
    requires Account(SharedView(manager, deleted), others, client.View())
    modifies client, manager, manager.heaps.Keys
    ensures manager.Valid() && Account(SharedView(manager, deleted'), others, client.View())
    ensures status == (if P.IndexOfId(old(client.jobs), id) >= 0 || id in old(manager.stored) then Ok else NoJob)
    ensures manager.stored == old(manager.stored) - {id}
    ensures var k := P.IndexOfId(old(client.jobs), id);
            client.jobs == if k >= 0 then old(client.jobs)[..k] + old(client.jobs)[k + 1..] else old(client.jobs)
    ensures deleted' == if status == Ok then deleted + {id} else deleted
    ensures status == Ok ==>
              var op := if P.IndexOfId(old(client.jobs), id) >= 0 then P.DeleteHeld(id) else P.DeleteStored(id);
              Perform(old(SharedView(manager, deleted)), old(client.View()), [op]) ==
              Some((SharedView(manager, deleted'), client.View()))
    ensures status == NoJob ==>
              SharedView(manager, deleted') == old(SharedView(manager, deleted)) && client.jobs == old(client.jobs)
  {
    hide QueueManager.Shape, QueueManager.Contents, QueueManager.IndexOf, P.Owned, P.ClientInv;
    var job := client.HasJob(id);
    deleted' := deleted;
    if job.Some? {
      HeldIsNotStored(SharedView(manager, deleted), others, client.View(), id);
      PerformOne(SharedView(manager, deleted), others, client.View(), P.DeleteHeld(id));
      var done := client.DeleteJob(job.value.id);
      deleted' := deleted + {id};
      status := Ok;
    } else {
      status, deleted' := DeleteFromQueue(client, id, manager, deleted, others);
    }
  }

  /** handleDelete for a job that the client does not hold. */
  method DeleteFromQueue(client: Client, id: int, manager: QueueManager,
                         ghost deleted: set<int>, ghost others: int -> nat)
    returns (status: Status, ghost deleted': set<int>)
    requires manager.Valid() && client as object !in manager.heaps && client as object != manager
    requires Account(SharedView(manager, deleted), others, client.View())
    requires P.IndexOfId(client.jobs, id) == -1
    modifies manager, manager.heaps.Keys
    ensures manager.Valid() && Account(SharedView(manager, deleted'), others, client.View())
    ensures status == (if id in old(manager.stored) then Ok else NoJob)
    ensures manager.stored == old(manager.stored) - {id}
    ensures deleted' == if status == Ok then deleted + {id} else deleted
    ensures status == Ok ==>
              Perform(old(SharedView(manager, deleted)), client.View(), [P.DeleteStored(id)]) ==
              Some((SharedView(manager, deleted'), client.View()))
    ensures status == NoJob ==> SharedView(manager, deleted') == old(SharedView(manager, deleted))
  {
    hide QueueManager.Shape, QueueManager.Contents, QueueManager.IndexOf, P.Owned, P.ClientInv;
    deleted' := deleted;
    ghost var sh := SharedView(manager, deleted);
    if id in manager.stored {
      PerformOne(SharedView(manager, deleted), others, client.View(), P.DeleteStored(id));
    }
    var done := manager.DeleteJob(id);
    if done {
      deleted' := deleted + {id};
      assert SharedView(manager, deleted') == P.Apply(sh, P.DiscardStored(id));
      status := Ok;
    } else {
      assert manager.stored == old(manager.stored);
      status := NoJob;
    }
  }
}
