/** The job center's ownership protocol. A handler runs as a sequence of steps, one for each time it
    holds the queue manager's lock, and any number of clients' steps may interleave.
    Models the handlers of internal/jobcenter/jobcenter.go over internal/jobcenter/queuemanager.go. */
module JobProtocol {
  import opened Wrappers
  import opened QueueManager

  /** Where a client's handler stands between two of its steps. */
  datatype Pc =
    | Idle
    | Putting(job: Job)      // handlePut: the id is taken, the job is not yet in its queue
    | Releasing(id: int)     // handleAbort: the job is back in its queue but still in the client's list
    | Returning(done: nat)   // returnAllJobs: that many jobs of the list are back in their queues
    | Gone

  datatype Client = Client(jobs: seq<Job>, pc: Pc)

  /** The queue manager; deleted is the history of deleted ids. */
  datatype Shared = Shared(currentId: int, stored: map<int, Job>, deleted: set<int>)

  datatype Op =
    | TakeId(priority: int, content: Content, queue: QueueName)
    | FinishPut
    | Get(names: seq<QueueName>, job: Job)
    | AbortPut(id: int)
    | AbortDrop
    | DeleteHeld(id: int)
    | DeleteStored(id: int)
    | HangUp
    | ReturnOne
    | ReturnDone

  // ---------- The client's own list ----------

  /** Position of the first entry with the id, -1 when there is none. */
  function IndexOfId(jobs: seq<Job>, id: int): (k: int)
    ensures -1 <= k < |jobs|
    ensures k >= 0 ==> jobs[k].id == id
    ensures k == -1 <==> Count(jobs, id) == 0
  {
    if jobs == [] then -1
    else if jobs[0].id == id then 0
    else
      var k := IndexOfId(jobs[1..], id);
      if k == -1 then -1 else k + 1
  }

  function RemoveAt(jobs: seq<Job>, k: nat): seq<Job>
    requires k < |jobs|
  {
    jobs[..k] + jobs[k + 1..]
  }

  /** How many entries have the id. */
  function Count(jobs: seq<Job>, id: int): nat {
    if jobs == [] then 0 else (if jobs[0].id == id then 1 else 0) + Count(jobs[1..], id)
  }

  lemma {:induction false} CountAppend(jobs: seq<Job>, job: Job, id: int)
    ensures Count(jobs + [job], id) == Count(jobs, id) + (if job.id == id then 1 else 0)
  {
    if jobs == [] {
      assert jobs + [job] == [job] && Count([job][1..], id) == 0;
    } else {
      assert (jobs + [job])[1..] == jobs[1..] + [job];
      CountAppend(jobs[1..], job, id);
    }
  }

  lemma {:induction false} CountRemoveAt(jobs: seq<Job>, k: nat, id: int)
    requires k < |jobs|
    ensures Count(RemoveAt(jobs, k), id) == Count(jobs, id) - (if jobs[k].id == id then 1 else 0)
  {
    if k == 0 {
      assert RemoveAt(jobs, k) == jobs[1..];
    } else {
      assert RemoveAt(jobs, k)[1..] == RemoveAt(jobs[1..], k - 1);
      CountRemoveAt(jobs[1..], k - 1, id);
    }
  }

  // ---------- Steps ----------

  predicate Maximal(stored: map<int, Job>, names: seq<QueueName>, job: Job) {
    && job.id in stored && stored[job.id] == job && job.queue in names
    && forall id :: id in stored && stored[id].queue in names ==> stored[id].priority <= job.priority
  }

  /** The handler is at this step. */
  predicate ClientReady(c: Client, op: Op) {
    match op
    case TakeId(_, _, _) => c.pc == Idle
    case FinishPut => c.pc.Putting?
    case Get(_, _) => c.pc == Idle
    case AbortPut(id) => c.pc == Idle && IndexOfId(c.jobs, id) >= 0
    case AbortDrop => c.pc.Releasing? && IndexOfId(c.jobs, c.pc.id) >= 0
    case DeleteHeld(id) => c.pc == Idle && IndexOfId(c.jobs, id) >= 0
    case DeleteStored(id) => c.pc == Idle && IndexOfId(c.jobs, id) == -1
    case HangUp => c.pc == Idle
    case ReturnOne => c.pc.Returning? && c.pc.done < |c.jobs|
    case ReturnDone => c.pc.Returning? && c.pc.done == |c.jobs|
  }

  /** The queue manager answers this way. */
  predicate SharedReady(sh: Shared, op: Op) {
    match op
    case Get(names, job) => Maximal(sh.stored, names, job)
    case DeleteStored(id) => id in sh.stored
    case _ => true
  }

  /** What a step does to the queue manager, all in one hold of its lock. */
  datatype Move =
    | Stay
    | Issue                  // GetNextId
    | ToQueue(job: Job)      // PutJob
    | FromQueue(id: int)     // GetPriorityJob
    | Discard(id: int)       // a held job is deleted
    | DiscardStored(id: int) // DeleteJob

  function MoveOf(c: Client, op: Op): Move
    requires ClientReady(c, op)
  {
    match op
    case TakeId(_, _, _) => Issue
    case FinishPut => ToQueue(c.pc.job)
    case Get(_, job) => FromQueue(job.id)
    case AbortPut(id) => ToQueue(c.jobs[IndexOfId(c.jobs, id)])
    case AbortDrop => Stay
    case DeleteHeld(id) => Discard(id)
    case DeleteStored(id) => DiscardStored(id)
    case HangUp => Stay
    case ReturnOne => ToQueue(c.jobs[c.pc.done])
    case ReturnDone => Stay
  }

  function Apply(sh: Shared, move: Move): Shared {
    match move
    case Stay => sh
    case Issue => sh.(currentId := sh.currentId + 1)
    case ToQueue(job) => sh.(stored := sh.stored[job.id := job])
    case FromQueue(id) => sh.(stored := sh.stored - {id})
    case Discard(id) => sh.(deleted := sh.deleted + {id})
    case DiscardStored(id) => sh.(stored := sh.stored - {id}, deleted := sh.deleted + {id})
  }

  /** What a step does to the client; newId is the id that GetNextId returns. */
  function ClientAfter(c: Client, op: Op, newId: int): Client
    requires ClientReady(c, op)
  {
    match op
    case TakeId(priority, content, queue) => c.(pc := Putting(Job(priority, newId, content, queue)))
    case FinishPut => c.(pc := Idle)
    case Get(_, job) => c.(jobs := c.jobs + [job])
    case AbortPut(id) => c.(pc := Releasing(id))
    case AbortDrop => Client(RemoveAt(c.jobs, IndexOfId(c.jobs, c.pc.id)), Idle)
    case DeleteHeld(id) => c.(jobs := RemoveAt(c.jobs, IndexOfId(c.jobs, id)))
    case DeleteStored(_) => c
    case HangUp => c.(pc := Returning(0))
    case ReturnOne => c.(pc := Returning(c.pc.done + 1))
    case ReturnDone => Client([], Gone)
  }

  // ---------- Conservation ----------

  /** How often a client is responsible for the id: for the entries of its list that it is not
      releasing, and for the job it is putting. */
  function Owned(c: Client, id: int): int {
    match c.pc
    case Idle => Count(c.jobs, id)
    case Putting(job) => Count(c.jobs, id) + One(job.id == id)
    case Releasing(released) => Count(c.jobs, id) - One(released == id)
    case Returning(done) => if done <= |c.jobs| then Count(c.jobs[done..], id) else 0
    case Gone => Count(c.jobs, id)
  }

  function One(b: bool): int {
    if b then 1 else 0
  }

  predicate ClientInv(c: Client) {
    && (c.pc.Releasing? ==> Count(c.jobs, c.pc.id) > 0)
    && (c.pc.Returning? ==> c.pc.done <= |c.jobs|)
  }

  /** The id is accounted for: once if it has ever been given out, counting the queues, the owners
      and the deleted, and not at all otherwise. */
  predicate Accounted(sh: Shared, owned: int, id: int) {
    One(id in sh.stored) + owned + One(id in sh.deleted) == One(1 <= id <= sh.currentId)
  }

  /** What a move changes of the owners' count of an id. */
  function Change(move: Move, newId: int, id: int): int {
    match move
    case Stay => 0
    case Issue => One(newId == id)
    case ToQueue(job) => -One(job.id == id)
    case FromQueue(taken) => One(taken == id)
    case Discard(gone) => -One(gone == id)
    case DiscardStored(_) => 0
  }

  /** The owners have what they give, the queues have what is taken from them. */
  predicate Covered(sh: Shared, owned: int, move: Move, id: int) {
    match move
    case ToQueue(job) => job.id == id ==> owned > 0
    case FromQueue(taken) => taken in sh.stored
    case Discard(gone) => gone == id ==> owned > 0
    case DiscardStored(gone) => gone in sh.stored
    case _ => true
  }

  /** A covered move keeps the account: what it takes from one place it adds to another. A job handed
      to PutJob is not stored, as PutJob requires. */
  lemma MoveConserves(sh: Shared, owned: int, move: Move, id: int)
    requires sh.currentId >= 0 && owned >= 0
    requires Accounted(sh, owned, id) && Covered(sh, owned, move, id)
    ensures Accounted(Apply(sh, move), owned + Change(move, sh.currentId + 1, id), id)
    ensures move.ToQueue? && move.job.id == id ==> id !in sh.stored
  {
  }

  /** A client's step changes what the client owns exactly as its move says, and the move is covered. */
  lemma ClientConserves(sh: Shared, c: Client, op: Op, id: int)
    requires ClientInv(c) && ClientReady(c, op) && SharedReady(sh, op)
    ensures ClientInv(ClientAfter(c, op, sh.currentId + 1))
    ensures Owned(ClientAfter(c, op, sh.currentId + 1), id) ==
            Owned(c, id) + Change(MoveOf(c, op), sh.currentId + 1, id)
    ensures Owned(c, id) >= 0 && Covered(sh, Owned(c, id), MoveOf(c, op), id)
  {
    match op
    case Get(_, job) => CountAppend(c.jobs, job, id);
    case AbortDrop => CountRemoveAt(c.jobs, IndexOfId(c.jobs, c.pc.id), id);
    case DeleteHeld(gone) => CountRemoveAt(c.jobs, IndexOfId(c.jobs, gone), id);
    case HangUp => assert c.jobs[0..] == c.jobs;
    case ReturnOne => assert c.jobs[c.pc.done..][1..] == c.jobs[c.pc.done + 1..];
    case _ =>
  }

  // ---------- Any number of clients ----------

  datatype System = System(shared: Shared, clients: seq<Client>)

  datatype Event = Connect | ClientStep(client: nat, op: Op)

  const EMPTY := System(Shared(0, map[], {}), [])

  predicate CanHappen(sys: System, e: Event) {
    e.Connect? || (e.client < |sys.clients| &&
       ClientReady(sys.clients[e.client], e.op) && SharedReady(sys.shared, e.op))
  }

  function Happen(sys: System, e: Event): System
    requires CanHappen(sys, e)
  {
    match e
    case Connect => sys.(clients := sys.clients + [Client([], Idle)])
    case ClientStep(i, op) =>
      System(Apply(sys.shared, MoveOf(sys.clients[i], op)),
             sys.clients[i := ClientAfter(sys.clients[i], op, sys.shared.currentId + 1)])
  }

  /** What all the clients own of an id together. */
  function TotalOwned(clients: seq<Client>, id: int): int {
    if clients == [] then 0 else Owned(clients[0], id) + TotalOwned(clients[1..], id)
  }

  /** When one client changes, the total changes as much. */
  lemma {:induction false} TotalOwnedUpdate(clients: seq<Client>, i: nat, c: Client, id: int)
    requires i < |clients|
    ensures TotalOwned(clients[i := c], id) == TotalOwned(clients, id) - Owned(clients[i], id) + Owned(c, id)
  {
    if i == 0 {
      assert clients[i := c][1..] == clients[1..];
    } else {
      assert clients[i := c][1..] == clients[1..][i - 1 := c];
      TotalOwnedUpdate(clients[1..], i - 1, c, id);
    }
  }

  lemma {:induction false} TotalOwnedConnect(clients: seq<Client>, id: int)
    ensures TotalOwned(clients + [Client([], Idle)], id) == TotalOwned(clients, id)
  {
    if clients == [] {
      assert clients + [Client([], Idle)] == [Client([], Idle)];
    } else {
      assert (clients + [Client([], Idle)])[1..] == clients[1..] + [Client([], Idle)];
      TotalOwnedConnect(clients[1..], id);
    }
  }

  predicate ClientsInv(clients: seq<Client>) {
    forall i :: 0 <= i < |clients| ==> ClientInv(clients[i])
  }

  /** No client owns a negative number, so each owns at most the total. */
  lemma {:induction false} OwnedIsPart(clients: seq<Client>, i: nat, id: int)
    requires ClientsInv(clients) && i < |clients|
    ensures 0 <= Owned(clients[i], id) <= TotalOwned(clients, id)
  {
    OwnedNotNegative(clients[0], id);
    TotalNotNegative(clients[1..], id);
    if i > 0 {
      OwnedIsPart(clients[1..], i - 1, id);
    }
  }

  lemma OwnedNotNegative(c: Client, id: int)
    requires ClientInv(c)
    ensures Owned(c, id) >= 0
  {
  }

  lemma {:induction false} TotalNotNegative(clients: seq<Client>, id: int)
    requires ClientsInv(clients)
    ensures TotalOwned(clients, id) >= 0
  {
    if clients != [] {
      OwnedNotNegative(clients[0], id);
      TotalNotNegative(clients[1..], id);
    }
  }

  ghost predicate SystemInv(sys: System) {
    && sys.shared.currentId >= 0
    && ClientsInv(sys.clients)
    && Keyed(sys.shared.stored)
    && forall id: int :: Accounted(sys.shared, TotalOwned(sys.clients, id), id)
  }

  /** Every step of every client keeps the account, and deletion is for ever. */
  lemma HappenInv(sys: System, e: Event)
    requires SystemInv(sys) && CanHappen(sys, e)
    ensures SystemInv(Happen(sys, e))
    ensures sys.shared.deleted <= Happen(sys, e).shared.deleted
    ensures sys.shared.currentId <= Happen(sys, e).shared.currentId
    ensures e.ClientStep? && MoveOf(sys.clients[e.client], e.op).ToQueue? ==>
              MoveOf(sys.clients[e.client], e.op).job.id !in sys.shared.stored
  {
    var next := Happen(sys, e);
    forall id: int
      ensures Accounted(next.shared, TotalOwned(next.clients, id), id)
    {
      HappenAccounted(sys, e, id);
    }
    if e.ClientStep? {
      ClientConserves(sys.shared, sys.clients[e.client], e.op, 0);
      var move := MoveOf(sys.clients[e.client], e.op);
      if move.ToQueue? {
        HappenAccounted(sys, e, move.job.id);
      }
    }
  }

  lemma HappenAccounted(sys: System, e: Event, id: int)
    requires SystemInv(sys) && CanHappen(sys, e)
    ensures Accounted(Happen(sys, e).shared, TotalOwned(Happen(sys, e).clients, id), id)
    ensures e.ClientStep? ==>
              var move := MoveOf(sys.clients[e.client], e.op);
              move.ToQueue? && move.job.id == id ==> id !in sys.shared.stored
  {
    assert Accounted(sys.shared, TotalOwned(sys.clients, id), id);
    match e
    case Connect => TotalOwnedConnect(sys.clients, id);
    case ClientStep(i, op) =>
      var c := sys.clients[i];
      var move, newId := MoveOf(c, op), sys.shared.currentId + 1;
      TotalOwnedUpdate(sys.clients, i, ClientAfter(c, op, newId), id);
      ClientConserves(sys.shared, c, op, id);
      OwnedIsPart(sys.clients, i, id);
      MoveConserves(sys.shared, TotalOwned(sys.clients, id), move, id);
  }

  /** The state after the events, if each of them can happen when its turn comes. */
  function Run(sys: System, events: seq<Event>): Option<System>
    decreases |events|
  {
    if events == [] then Some(sys)
    else if CanHappen(sys, events[0]) then Run(Happen(sys, events[0]), events[1..])
    else None
  }

  lemma {:induction false} RunInv(sys: System, events: seq<Event>)
    requires SystemInv(sys) && Run(sys, events).Some?
    ensures SystemInv(Run(sys, events).value)
    ensures sys.shared.deleted <= Run(sys, events).value.shared.deleted
    decreases |events|
  {
    if events != [] {
      HappenInv(sys, events[0]);
      RunInv(Happen(sys, events[0]), events[1..]);
    }
  }

  /** The clients that own the id. */
  function Owners(clients: seq<Client>, id: int): set<nat> {
    set i: nat | i < |clients| && Owned(clients[i], id) > 0
  }

  lemma {:induction false} OneOwner(clients: seq<Client>, id: int, i: nat, j: nat)
    requires ClientsInv(clients) && TotalOwned(clients, id) <= 1
    requires i < j < |clients| && Owned(clients[i], id) > 0
    ensures Owned(clients[j], id) == 0
  {
    if i > 0 {
      OwnedNotNegative(clients[0], id);
      OneOwner(clients[1..], id, i - 1, j - 1);
    } else {
      OwnedIsPart(clients[1..], j - 1, id);
    }
  }

  lemma {:induction false} SomeOwner(clients: seq<Client>, id: int) returns (i: nat)
    requires TotalOwned(clients, id) > 0
    ensures i < |clients| && Owned(clients[i], id) > 0
  {
    if Owned(clients[0], id) > 0 {
      i := 0;
    } else {
      i := SomeOwner(clients[1..], id);
      i := i + 1;
    }
  }

  lemma NoOwner(clients: seq<Client>, id: int)
    requires ClientsInv(clients) && TotalOwned(clients, id) == 0
    ensures Owners(clients, id) == {}
  {
    forall i: nat | i < |clients|
      ensures Owned(clients[i], id) == 0
    {
      OwnedIsPart(clients, i, id);
    }
  }

  /** In every run, with any number of clients and any interleaving of their handlers, every id ever
      given out is in exactly one place: deleted, or in a queue, or owned by exactly one client, and
      no other id is anywhere. */
  lemma ExactlyOnePlace(events: seq<Event>, id: int)
    requires Run(EMPTY, events).Some?
    ensures var sys := Run(EMPTY, events).value;
            var sh, owners := sys.shared, Owners(sys.clients, id);
            if 1 <= id <= sh.currentId then
              || (id in sh.deleted && id !in sh.stored && owners == {})
              || (id !in sh.deleted && id in sh.stored && sh.stored[id].id == id && owners == {})
              || (id !in sh.deleted && id !in sh.stored && exists i :: owners == {i})
            else id !in sh.deleted && id !in sh.stored && owners == {}
  {
    EmptyInv();
    RunInv(EMPTY, events);
    var sys := Run(EMPTY, events).value;
    assert Accounted(sys.shared, TotalOwned(sys.clients, id), id);
    TotalNotNegative(sys.clients, id);
    if TotalOwned(sys.clients, id) > 0 {
      var i := SomeOwner(sys.clients, id);
      forall j | j in Owners(sys.clients, id)
        ensures j == i
      {
        if i < j {
          OneOwner(sys.clients, id, i, j);
        } else if j < i {
          OneOwner(sys.clients, id, j, i);
        }
      }
      assert Owners(sys.clients, id) == {i};
    } else {
      NoOwner(sys.clients, id);
    }
  }

  lemma EmptyInv()
    ensures SystemInv(EMPTY)
  {
  }

  /** A deleted id is never handed out again, however the run goes on: it is in no queue for Get to
      find, no client owns it, and no new job gets it. */
  lemma DeletedForEver(events: seq<Event>, more: seq<Event>, id: int)
    requires Run(EMPTY, events).Some? && id in Run(EMPTY, events).value.shared.deleted
    requires Run(Run(EMPTY, events).value, more).Some?
    ensures var last := Run(Run(EMPTY, events).value, more).value;
            && id !in last.shared.stored
            && Owners(last.clients, id) == {}
            && id <= last.shared.currentId
  {
    EmptyInv();
    RunInv(EMPTY, events);
    RunInv(Run(EMPTY, events).value, more);
    var last := Run(Run(EMPTY, events).value, more).value;
    assert Accounted(last.shared, TotalOwned(last.clients, id), id);
    TotalNotNegative(last.clients, id);
    NoOwner(last.clients, id);
  }

  lemma RunCons(sys: System, e: Event, next: System, rest: seq<Event>)
    requires CanHappen(sys, e) && Happen(sys, e) == next
    ensures Run(sys, [e] + rest) == Run(next, rest)
  {
    assert ([e] + rest)[1..] == rest;
  }

  /** Two clients connect; the first puts a job and gets it back. */
  function PutAndGot(job: Job, rest: seq<Event>): seq<Event> {
    [Connect] + ([Connect] + ([ClientStep(0, TakeId(job.priority, job.content, job.queue))] +
      ([ClientStep(0, FinishPut)] + ([ClientStep(0, Get([job.queue], job))] + rest))))
  }

  lemma AfterPutAndGot(job: Job, rest: seq<Event>)
    requires job.id == 1
    ensures Run(EMPTY, PutAndGot(job, rest)) ==
            Run(System(Shared(1, map[], {}), [Client([job], Idle), Client([], Idle)]), rest)
  {
    var get := ClientStep(0, Get([job.queue], job));
    var take := ClientStep(0, TakeId(job.priority, job.content, job.queue));
    var s1 := System(Shared(0, map[], {}), [Client([], Idle)]);
    var s2 := System(Shared(0, map[], {}), [Client([], Idle), Client([], Idle)]);
    var s3 := System(Shared(1, map[], {}), [Client([], Putting(job)), Client([], Idle)]);
    var s4 := System(Shared(1, map[1 := job], {}), [Client([], Idle), Client([], Idle)]);
    var s5 := System(Shared(1, map[], {}), [Client([job], Idle), Client([], Idle)]);
    RunCons(EMPTY, Connect, s1, [Connect] + ([take] + ([ClientStep(0, FinishPut)] + ([get] + rest))));
    RunCons(s1, Connect, s2, [take] + ([ClientStep(0, FinishPut)] + ([get] + rest)));
    RunCons(s2, take, s3, [ClientStep(0, FinishPut)] + ([get] + rest));
    RunCons(s3, ClientStep(0, FinishPut), s4, [get] + rest);
    OnlyJobTaken(job);
    RunCons(s4, get, s5, rest);
  }

  /** While handleAbort is under way its job may be in the queue, and even with another client, although
      the releasing client still lists it: a run from the empty system, for any first job. The entry of
      the releasing client is not owned. */
  lemma ReleasingIsVisible(job: Job)
    requires job.id == 1
    ensures Run(EMPTY, PutAndGot(job, [ClientStep(0, AbortPut(1)), ClientStep(1, Get([job.queue], job))])) ==
            Some(System(Shared(1, map[], {}), [Client([job], Releasing(1)), Client([job], Idle)]))
    ensures forall id :: Owned(Client([job], Releasing(1)), id) == 0
  {
    var release, get := ClientStep(0, AbortPut(1)), ClientStep(1, Get([job.queue], job));
    var s5 := System(Shared(1, map[], {}), [Client([job], Idle), Client([], Idle)]);
    var s6 := System(Shared(1, map[1 := job], {}), [Client([job], Releasing(1)), Client([], Idle)]);
    var s7 := System(Shared(1, map[], {}), [Client([job], Releasing(1)), Client([job], Idle)]);
    AfterPutAndGot(job, [release, get]);
    assert [release, get] == [release] + ([get] + []);
    OnlyJobTaken(job);
    RunCons(s5, release, s6, [get] + []);
    RunCons(s6, get, s7, []);
    forall id: int
      ensures Owned(Client([job], Releasing(1)), id) == 0
    {
      assert [job][1..] == [];
      assert Count([job], id) == (if job.id == id then 1 else 0) + Count([job][1..], id);
    }
  }

  lemma OnlyJobTaken(job: Job)
    ensures Maximal(map[job.id := job], [job.queue], job)
    ensures map[job.id := job] - {job.id} == map[]
    ensures var none: seq<Job> := []; none + [job] == [job]
  {
  }
}
