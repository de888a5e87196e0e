/**
  The key server's coalescing registry as one sequential state: the table of
  generation futures per name, the clients waiting per name, the queue of
  deliveries handed to the reactor, and the generation jobs submitted so far.
  It is generic in the connection type C; KeyServer instantiates it with its
  ClientAttachment.
*/
module KeyRegistry {
  import opened Bytes
  import opened KeyProtocol

  /** The state of a name's CompletableFuture. */
  datatype Completion = Pending | Done(result: KeyResult) | Failed

  /** What a generation job ends with: a result, or an exception. */
  datatype GenerationOutcome = Generated(result: KeyResult) | GenerationFailed

  /** A response frame handed from a generator thread to the reactor for one client. */
  datatype PendingDelivery<C> = PendingDelivery(client: C, buffer: seq<byte>)

  datatype Registry<C> = Registry(
    nameTable: map<string, Completion>,
    waitingClients: map<string, seq<C>>,
    pendingDeliveries: seq<PendingDelivery<C>>,
    jobs: seq<string>)  // names whose generation job was submitted, in submission order

  /** A registry after a request, and whether the requesting connection is closed. */
  datatype JoinResult<C> = JoinResult(registry: Registry<C>, closeConnection: bool)

  /**
    One job per name ever, a table entry exactly for the names with a job, and
    nobody left waiting on a name whose result is already done.
  */
  ghost predicate Inv<C>(r: Registry<C>)
  {
    && (forall i, j :: 0 <= i < j < |r.jobs| ==> r.jobs[i] != r.jobs[j])
    && (forall n :: n in r.nameTable <==> n in r.jobs)
    && (forall n :: n in r.waitingClients ==> n in r.nameTable && !r.nameTable[n].Done?)
  }

  /** computeIfAbsent: an absent name gets a pending entry and a submitted job. */
  function GetOrCreate<C>(r: Registry<C>, name: string): Registry<C>
  {
    if name in r.nameTable then r
    else r.(nameTable := r.nameTable[name := Pending], jobs := r.jobs + [name])
  }

  /** The waiting list of a name, empty when there is none. */
  function WaitersOf<C>(r: Registry<C>, name: string): seq<C>
  {
    if name in r.waitingClients then r.waitingClients[name] else []
  }

  /** compute: appends c to the name's waiting list, creating the list if absent. */
  function AddWaiter<C>(r: Registry<C>, name: string, c: C): Registry<C>
  {
    r.(waitingClients := r.waitingClients[name := WaitersOf(r, name) + [c]])
  }

  /** One delivery of the same frame per client, in list order. */
  function Deliveries<C>(clients: seq<C>, frame: seq<byte>): (ds: seq<PendingDelivery<C>>)
    ensures |ds| == |clients|
    ensures forall i :: 0 <= i < |clients| ==> ds[i].client == clients[i] && ds[i].buffer == frame
  {
    seq(|clients|, i requires 0 <= i < |clients| => PendingDelivery(clients[i], frame))
  }

  /**
    deliverResultToWaitingClients: removes the name's waiting list and, when it
    is non-empty, queues the result's frame for each of its clients. When the
    frame does not fit (the int total overflows) building it throws after the
    list was removed, and nothing is queued.
  */
  function Deliver<C>(r: Registry<C>, name: string, res: KeyResult): Registry<C>
  {
    var clients := WaitersOf(r, name);
    var removed := r.(waitingClients := r.waitingClients - {name});
    if clients == [] || !FrameFits(res) then removed
    else removed.(pendingDeliveries := r.pendingDeliveries + Deliveries(clients, FrameOf(res)))
  }

  /** Whether deliverResultToWaitingClients throws: there are waiters, and their frame does not fit. */
  predicate DeliverThrows<C>(r: Registry<C>, name: string, res: KeyResult)
  {
    WaitersOf(r, name) != [] && !FrameFits(res)
  }

  /**
    handleNameRequest: get or create the name's entry, join its waiting list,
    then serve a done result at once or close the connection on a failed one,
    or when serving the done result throws.
  */
  function Join<C>(r: Registry<C>, name: string, c: C): JoinResult<C>
  {
    var joined := AddWaiter(GetOrCreate(r, name), name, c);
    match joined.nameTable[name]
    case Pending => JoinResult(joined, false)
    case Done(res) => JoinResult(Deliver(joined, name, res), DeliverThrows(joined, name, res))
    case Failed => JoinResult(joined, true)
  }

  /**
    The generation job for name finishes: the future is completed and, on
    success, the result is delivered to the waiting clients. On failure the
    waiting clients are left as they are. An exception from the delivery is
    caught by the job, and failing the future then has no effect since it is
    already complete.
  */
  function Complete<C>(r: Registry<C>, name: string, outcome: GenerationOutcome): Registry<C>
  {
    match outcome
    case Generated(res) => Deliver(r.(nameTable := r.nameTable[name := Done(res)]), name, res)
    case GenerationFailed => r.(nameTable := r.nameTable[name := Failed])
  }

  lemma {:induction false} DistinctOccursOnce(s: seq<string>, x: string)
    requires forall i, j :: 0 <= i < j < |s| ==> s[i] != s[j]
    ensures multiset(s)[x] == if x in s then 1 else 0
  {
    if s != [] {
      var last := s[|s| - 1];
      var front := s[..|s| - 1];
      assert s == front + [last];
      DistinctOccursOnce(front, x);
      assert last !in front;
      assert x in s <==> x in front || x == last;
    }
  }

  /** Under the invariant every name in the table had exactly one generation job. */
  lemma OneJobPerName<C>(r: Registry<C>, name: string)
    requires Inv(r)
    ensures multiset(r.jobs)[name] == if name in r.nameTable then 1 else 0
  {
    DistinctOccursOnce(r.jobs, name);
  }

  /**
    Get-or-create: a job is submitted only for a name with no entry, and an
    existing entry is kept as it is.
  */
  lemma JoinSchedulesOnlyAbsent<C>(r: Registry<C>, name: string, c: C)
    ensures var r' := Join(r, name, c).registry;
      && (name in r.nameTable ==> r'.nameTable == r.nameTable && r'.jobs == r.jobs)
      && (name !in r.nameTable ==> r'.nameTable == r.nameTable[name := Pending] && r'.jobs == r.jobs + [name])
  {
  }

  lemma DeliverFacts<C>(r: Registry<C>, name: string, res: KeyResult)
    ensures var r' := Deliver(r, name, res); var ws := WaitersOf(r, name);
      && r'.nameTable == r.nameTable && r'.jobs == r.jobs
      && r'.waitingClients == r.waitingClients - {name}
      && (FrameFits(res) ==> r'.pendingDeliveries == r.pendingDeliveries + Deliveries(ws, FrameOf(res)))
      && (!FrameFits(res) ==> r'.pendingDeliveries == r.pendingDeliveries)
  {
    var ws := WaitersOf(r, name);
    if ws == [] {
      assert Deliveries(ws, FrameOf(res)) == [];
      assert r.pendingDeliveries + [] == r.pendingDeliveries;
    }
  }

  /** Every reachable step keeps the invariant: a request ... */
  lemma JoinPreservesInv<C>(r: Registry<C>, name: string, c: C)
    requires Inv(r)
    ensures Inv(Join(r, name, c).registry)
  {
    var joined := AddWaiter(GetOrCreate(r, name), name, c);
    if name !in r.nameTable {
      assert name !in r.jobs;
      var js := joined.jobs;
      assert js == r.jobs + [name];
      forall i, j | 0 <= i < j < |js| ensures js[i] != js[j] {
        if j == |js| - 1 {
          assert js[i] == r.jobs[i];
        }
      }
    }
    if joined.nameTable[name].Done? {
      DeliverFacts(joined, name, joined.nameTable[name].result);
    }
  }

  /** ... and the completion of a pending job. */
  lemma CompletePreservesInv<C>(r: Registry<C>, name: string, outcome: GenerationOutcome)
    requires Inv(r) && name in r.nameTable && r.nameTable[name].Pending?
    ensures Inv(Complete(r, name, outcome))
  {
    if outcome.Generated? {
      DeliverFacts(r.(nameTable := r.nameTable[name := Done(outcome.result)]), name, outcome.result);
    }
  }

  /**
    A request for a name that is not done joins the end of its waiting list,
    earlier waiters kept in order, and the connection stays open unless the
    name failed; nothing is queued.
  */
  lemma JoinAppendsWaiter<C>(r: Registry<C>, name: string, c: C)
    requires name !in r.nameTable || !r.nameTable[name].Done?
    ensures var j := Join(r, name, c);
      && j.registry.waitingClients == r.waitingClients[name := WaitersOf(r, name) + [c]]
      && j.registry.pendingDeliveries == r.pendingDeliveries
      && (j.closeConnection <==> name in r.nameTable && r.nameTable[name].Failed?)
  {
  }

  /**
    A request for a name whose result is done is served on the spot: exactly
    one delivery, for this client, is queued and nobody is left waiting. When
    the frame does not fit, nothing is queued and the connection is closed.
  */
  lemma JoinServesDone<C>(r: Registry<C>, name: string, c: C)
    requires Inv(r) && name in r.nameTable && r.nameTable[name].Done?
    ensures var j := Join(r, name, c); var res := r.nameTable[name].result;
      && (j.closeConnection <==> !FrameFits(res))
      && (FrameFits(res) ==> j.registry.pendingDeliveries == r.pendingDeliveries + [PendingDelivery(c, FrameOf(res))])
      && (!FrameFits(res) ==> j.registry.pendingDeliveries == r.pendingDeliveries)
      && j.registry.waitingClients == r.waitingClients
      && j.registry.nameTable == r.nameTable && j.registry.jobs == r.jobs
  {
    var joined := AddWaiter(GetOrCreate(r, name), name, c);
    assert WaitersOf(r, name) == [];
    DeliverFacts(joined, name, r.nameTable[name].result);
    assert Deliveries([c], FrameOf(r.nameTable[name].result)) == [PendingDelivery(c, FrameOf(r.nameTable[name].result))];
    assert joined.waitingClients - {name} == r.waitingClients;
  }

  /**
    Delivery removes the name's whole waiting list, leaves other lists alone,
    and appends one delivery per removed waiter, in list order, all with the
    same frame; with no waiters, or a frame that does not fit, nothing is queued.
  */
  lemma DeliverFansOut<C>(r: Registry<C>, name: string, res: KeyResult)
    ensures var r' := Deliver(r, name, res); var ws := WaitersOf(r, name);
      && name !in r'.waitingClients
      && (forall n :: n != name ==> (n in r'.waitingClients <==> n in r.waitingClients))
      && (forall n :: n != name && n in r.waitingClients ==> r'.waitingClients[n] == r.waitingClients[n])
      && |r'.pendingDeliveries| == |r.pendingDeliveries| + (if FrameFits(res) then |ws| else 0)
      && r'.pendingDeliveries[..|r.pendingDeliveries|] == r.pendingDeliveries
      && (FrameFits(res) ==> forall i :: 0 <= i < |ws| ==>
            r'.pendingDeliveries[|r.pendingDeliveries| + i] == PendingDelivery(ws[i], FrameOf(res)))
  {
    DeliverFacts(r, name, res);
  }

  /**
    A result whose frame does not fit completes the future, but its waiters
    are dropped from the list with nothing queued for them, and every later
    request for the name is closed.
  */
  lemma OversizedResultDropsWaiters<C>(r: Registry<C>, name: string, res: KeyResult, c: C)
    requires Inv(r) && name in r.nameTable && r.nameTable[name].Pending? && !FrameFits(res)
    ensures var r' := Complete(r, name, Generated(res));
      var j := Join(r', name, c);
      && r'.nameTable[name] == Done(res) && name !in r'.waitingClients
      && r'.pendingDeliveries == r.pendingDeliveries
      && j.closeConnection && j.registry.pendingDeliveries == r.pendingDeliveries
  {
    var r' := Complete(r, name, Generated(res));
    DeliverFacts(r.(nameTable := r.nameTable[name := Done(res)]), name, res);
    CompletePreservesInv(r, name, Generated(res));
    JoinServesDone(r', name, c);
  }

  /**
    A failed generation completes the future exceptionally and nothing else:
    the clients waiting on the name stay waiting and nothing is queued.
  */
  lemma FailureLeavesWaiters<C>(r: Registry<C>, name: string)
    ensures var r' := Complete(r, name, GenerationFailed);
      && r'.nameTable[name] == Failed
      && r'.waitingClients == r.waitingClients
      && r'.pendingDeliveries == r.pendingDeliveries
  {
  }

  /**
    As written, a client that asks for a new name whose job then fails is
    left waiting: its connection stays open, it is still on the name's
    waiting list, and nothing is ever queued for it.
  */
  lemma WaiterStrandedByFailure<C>(r: Registry<C>, name: string, c: C)
    requires Inv(r) && name !in r.nameTable
    ensures var j := Join(r, name, c);
      var r2 := Complete(j.registry, name, GenerationFailed);
      && !j.closeConnection
      && r2.nameTable[name] == Failed
      && WaitersOf(r2, name) == [c]
      && r2.pendingDeliveries == r.pendingDeliveries
  {
    JoinAppendsWaiter(r, name, c);
  }

  /**
    The intended completion: on success it is Complete; on failure the
    future fails and every client waiting on the name is removed from the
    waiting list and returned, to be closed, as a later request for a failed
    name is closed.
  */
  function CompleteClosingWaiters<C>(r: Registry<C>, name: string, outcome: GenerationOutcome): (Registry<C>, seq<C>)
  {
    match outcome
    case Generated(_) => (Complete(r, name, outcome), [])
    case GenerationFailed =>
      (r.(nameTable := r.nameTable[name := Failed], waitingClients := r.waitingClients - {name}), WaitersOf(r, name))
  }

  /**
    With the intended completion a failed job closes exactly the clients that
    were waiting on the name, in order, leaves no one waiting on it, and
    queues nothing; other names' waiters are untouched.
  */
  lemma FailureClosesEveryWaiter<C>(r: Registry<C>, name: string)
    ensures var (r', closed) := CompleteClosingWaiters(r, name, GenerationFailed);
      && r'.nameTable[name] == Failed
      && closed == WaitersOf(r, name)
      && name !in r'.waitingClients
      && (forall n :: n != name ==> (n in r'.waitingClients <==> n in r.waitingClients))
      && (forall n :: n != name && n in r.waitingClients ==> r'.waitingClients[n] == r.waitingClients[n])
      && r'.pendingDeliveries == r.pendingDeliveries
  {
  }

  /** The intended completion keeps the registry invariant. */
  lemma CompleteClosingWaitersPreservesInv<C>(r: Registry<C>, name: string, outcome: GenerationOutcome)
    requires Inv(r) && name in r.nameTable && r.nameTable[name].Pending?
    ensures Inv(CompleteClosingWaiters(r, name, outcome).0)
  {
    CompletePreservesInv(r, name, outcome);
  }

  /** The stranded client of WaiterStrandedByFailure is closed by the intended completion. */
  lemma FailureClosesStrandedWaiter<C>(r: Registry<C>, name: string, c: C)
    requires Inv(r) && name !in r.nameTable
    ensures var (r2, closed) := CompleteClosingWaiters(Join(r, name, c).registry, name, GenerationFailed);
      && closed == [c]
      && name !in r2.waitingClients
  {
    JoinAppendsWaiter(r, name, c);
  }

  /** Two requests for a new name: one pending entry, both clients waiting in order, nothing queued. */
  lemma TwoRequestsWait<C>(r: Registry<C>, name: string, c1: C, c2: C)
    requires Inv(r) && name !in r.nameTable
    ensures var r2 := Join(Join(r, name, c1).registry, name, c2).registry;
      && Inv(r2) && name in r2.nameTable && r2.nameTable[name] == Pending
      && WaitersOf(r2, name) == [c1, c2]
      && r2.pendingDeliveries == r.pendingDeliveries
      && r2.jobs == r.jobs + [name]
  {
    var r1 := Join(r, name, c1).registry;
    JoinPreservesInv(r, name, c1);
    JoinPreservesInv(r1, name, c2);
    assert WaitersOf(r, name) == [];
  }

  /**
    Two requests for a new name before its job finishes share one job, and
    its result reaches both, in request order, with the same frame; a result
    whose frame does not fit reaches neither, and both are dropped from the list.
  */
  lemma ConcurrentRequestsShareOneJob<C>(r: Registry<C>, name: string, c1: C, c2: C, res: KeyResult)
    requires Inv(r) && name !in r.nameTable
    ensures var r2 := Join(Join(r, name, c1).registry, name, c2).registry;
      var r3 := Complete(r2, name, Generated(res));
      && Inv(r3)
      && multiset(r3.jobs)[name] == 1
      && name !in r3.waitingClients
      && (FrameFits(res) ==> r3.pendingDeliveries == r.pendingDeliveries + [PendingDelivery(c1, FrameOf(res)), PendingDelivery(c2, FrameOf(res))])
      && (!FrameFits(res) ==> r3.pendingDeliveries == r.pendingDeliveries)
  {
    var r2 := Join(Join(r, name, c1).registry, name, c2).registry;
    TwoRequestsWait(r, name, c1, c2);
    CompletePreservesInv(r2, name, Generated(res));
    var done := r2.(nameTable := r2.nameTable[name := Done(res)]);
    DeliverFacts(done, name, res);
    var r3 := Complete(r2, name, Generated(res));
    OneJobPerName(r3, name);
    assert Deliveries([c1, c2], FrameOf(res)) == [PendingDelivery(c1, FrameOf(res)), PendingDelivery(c2, FrameOf(res))];
  }
}
