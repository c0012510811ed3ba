/** The server of scripts/codex/isolated_network_amendment_fixture.py that registers every connection and
    its worker thread, and stops in bounded time. */
module TrackedServer {
  import opened Wrappers

  // ----- The registries

  /** Connections and workers by identity. */
  datatype Registry = Registry(closing: bool, sockets: set<nat>, workers: set<nat>)

  /** `process_request` under the lock: a closing server shuts the connection and registers nothing. */
  function Admit(r: Registry, socket: nat, worker: nat): Registry {
    if r.closing then r else r.(sockets := r.sockets + {socket}, workers := r.workers + {worker})
  }

  /** The `finally` of a worker. */
  function Discard(r: Registry, socket: nat, worker: nat): Registry {
    r.(sockets := r.sockets - {socket}, workers := r.workers - {worker})
  }

  class Server {
    var closing: bool
    var sockets: set<nat>
    var workers: set<nat>

    function View(): Registry
      reads this
    {
      Registry(closing, sockets, workers)
    }

    constructor ()
      ensures View() == Registry(false, {}, {})
    {
      closing, sockets, workers := false, {}, {};
    }

    /** As many connections as workers are registered. */
    predicate Paired()
      reads this
    {
      |sockets| == |workers|
    }

    method ProcessRequest(request: nat, worker: nat) returns (registered: bool)
      modifies this
      ensures View() == Admit(old(View()), request, worker) && registered == !old(closing) && closing == old(closing)
      ensures registered ==> sockets == old(sockets) + {request} && workers == old(workers) + {worker}
      ensures !registered ==> sockets == old(sockets) && workers == old(workers)
      ensures old(Paired()) && request !in old(sockets) && worker !in old(workers) ==> Paired()
    {
      if closing {
        return false;
      }
      sockets := sockets + {request};
      workers := workers + {worker};
      return true;
    }

    method Unregister(request: nat, worker: nat)
      modifies this
      ensures View() == Discard(old(View()), request, worker) && closing == old(closing)
      ensures sockets == old(sockets) - {request} && workers == old(workers) - {worker}
      ensures old(Paired()) && request in old(sockets) && worker in old(workers) ==> Paired()
    {
      sockets := sockets - {request};
      workers := workers - {worker};
    }

    /** The first locked section of `stop`: the connections to shut, in any order. */
    method BeginStop() returns (connections: seq<nat>)
      modifies this`closing
      ensures closing && sockets == old(sockets) && workers == old(workers)
      ensures Lists(connections, sockets)
    {
      closing := true;
      connections := ListOf(sockets);
    }

    method ListWorkers() returns (list: seq<nat>)
      ensures Lists(list, workers)
    {
      list := ListOf(workers);
    }

    method Report() returns (workerCount: nat, socketCount: nat)
      ensures workerCount == |workers| && socketCount == |sockets|
    {
      return |workers|, |sockets|;
    }
  }

  /** Every element once. */
  predicate Lists(list: seq<nat>, elements: set<nat>) {
    && (forall x <- list :: x in elements)
    && (forall x <- elements :: x in list)
    && forall i, j :: 0 <= i < j < |list| ==> list[i] != list[j]
  }

  method ListOf(elements: set<nat>) returns (list: seq<nat>)
    ensures Lists(list, elements)
  {
    list := [];
    var rest := elements;
    while rest != {}
      invariant rest <= elements && Lists(list, elements - rest)
      decreases rest
    {
      var x :| x in rest;
      rest := rest - {x};
      list := list + [x];
    }
    assert elements - rest == elements;
  }

  // ----- Runs

  /** A worker serves, then runs its `finally`. One that could not be started stays unstarted. */
  datatype Phase = Unstarted | Serving | Leaving | Gone

  datatype Worker = Worker(socket: nat, phase: Phase)

  /** Where `stop` stands. */
  datatype Stop =
    | Running
    | Shutting(connections: seq<nat>)
    | Waiting
    | Joining(workers: seq<nat>)
    | Broken
    | Reported(workerCount: nat, socketCount: nat)

  /** `seen` are all connections ever accepted, `shut` those the server has shut down. */
  datatype State = State(
    registry: Registry,
    threads: map<nat, Worker>,
    seen: set<nat>,
    shut: set<nat>,
    accepting: bool,
    stop: Stop)

  datatype Event =
    | Connect(socket: nat, worker: nat, starts: bool)
    | EndRequest(worker: nat)
    | Unregister(worker: nat)
    | BeginStop(connections: seq<nat>)
    | ShutNext
    | AcceptEnds
    | ListWorkers(list: seq<nat>)
    | JoinNext
    | Report

  function Step(s: State, e: Event): State {
    var r := s.registry;
    match e
    case Connect(socket, worker, starts) =>
      if !s.accepting || socket in s.seen || worker in s.threads then s
      else if r.closing then s.(seen := s.seen + {socket}, shut := s.shut + {socket})
      else s.(seen := s.seen + {socket}, registry := Admit(r, socket, worker),
              threads := s.threads[worker := Worker(socket, if starts then Serving else Unstarted)])
    case EndRequest(worker) =>
      if worker in s.threads && s.threads[worker].phase == Serving then
        s.(threads := s.threads[worker := s.threads[worker].(phase := Leaving)])
      else s
    case Unregister(worker) =>
      if worker in s.threads && s.threads[worker].phase == Leaving then
        s.(registry := Discard(r, s.threads[worker].socket, worker),
           threads := s.threads[worker := s.threads[worker].(phase := Gone)])
      else s
    case BeginStop(connections) =>
      if s.stop.Running? && Lists(connections, r.sockets) then
        s.(registry := r.(closing := true), stop := Shutting(connections))
      else s
    case ShutNext =>
      if !s.stop.Shutting? then s
      else if s.stop.connections == [] then s.(stop := Waiting)
      else s.(shut := s.shut + {s.stop.connections[0]}, stop := Shutting(s.stop.connections[1..]))
    case AcceptEnds => if s.stop.Waiting? then s.(accepting := false) else s
    case ListWorkers(list) =>
      if s.stop.Waiting? && !s.accepting && Lists(list, r.workers) then s.(stop := Joining(list)) else s
    case JoinNext =>
      if !s.stop.Joining? || s.stop.workers == [] then s
      else if s.stop.workers[0] in s.threads && s.threads[s.stop.workers[0]].phase == Unstarted then s.(stop := Broken)
      else s.(stop := Joining(s.stop.workers[1..]))
    case Report =>
      if s.stop.Joining? && s.stop.workers == [] then s.(stop := Reported(|r.workers|, |r.sockets|)) else s
  }

  function Run(s: State, events: seq<Event>): State
    decreases |events|
  {
    if events == [] then s else Run(Step(s, events[0]), events[1..])
  }

  const BEGIN := State(Registry(false, {}, {}), map[], {}, {}, true, Running)

  // ----- The registries correspond

  /** Exactly the workers that are not gone are registered, each with a connection of its own. */
  ghost predicate Corresponds(s: State) {
    && Alive(s.registry, s.threads)
    && Connected(s.registry, s.threads)
    && (forall c <- s.registry.sockets :: HasWorker(s.registry, s.threads, c))
    && OwnSockets(s.threads)
    && (forall w <- s.threads :: s.threads[w].socket in s.seen)
  }

  predicate Alive(r: Registry, threads: map<nat, Worker>) {
    forall w <- threads :: w in r.workers <==> threads[w].phase != Gone
  }

  predicate Connected(r: Registry, threads: map<nat, Worker>) {
    forall w <- r.workers :: w in threads && threads[w].socket in r.sockets
  }

  ghost predicate HasWorker(r: Registry, threads: map<nat, Worker>, socket: nat) {
    exists w :: w in r.workers && w in threads && threads[w].socket == socket
  }

  predicate OwnSockets(threads: map<nat, Worker>) {
    forall v <- threads, w <- threads :: threads[v].socket == threads[w].socket ==> v == w
  }

  /** Once the server is closing, every registered connection has been shut or is about to be. */
  predicate Shuts(s: State) {
    && (s.registry.closing <==> !s.stop.Running?)
    && (s.registry.closing ==>
          forall c <- s.registry.sockets :: c in s.shut || (s.stop.Shutting? && c in s.stop.connections))
  }

  lemma StillHasWorker(r: Registry, threads: map<nat, Worker>, after: Registry, more: map<nat, Worker>, socket: nat)
    requires HasWorker(r, threads, socket)
    requires forall w <- threads :: w in more && more[w].socket == threads[w].socket
    requires forall w <- r.workers :: w in threads && threads[w].socket == socket ==> w in after.workers
    ensures HasWorker(after, more, socket)
  {
    var w :| w in r.workers && w in threads && threads[w].socket == socket;
    assert w in after.workers && more[w].socket == socket;
  }

  lemma ConnectCorresponds(s: State, socket: nat, worker: nat, starts: bool)
    requires Corresponds(s)
    ensures Corresponds(Step(s, Connect(socket, worker, starts)))
  {
    var next := Step(s, Connect(socket, worker, starts));
    forall c <- next.registry.sockets ensures HasWorker(next.registry, next.threads, c) {
      if c in s.registry.sockets {
        StillHasWorker(s.registry, s.threads, next.registry, next.threads, c);
      } else {
        assert worker in next.registry.workers && next.threads[worker].socket == c;
      }
    }
  }

  lemma UnregisterCorresponds(s: State, worker: nat)
    requires Corresponds(s) && worker in s.threads && s.threads[worker].phase == Leaving
    ensures Corresponds(Step(s, Unregister(worker)))
  {
    var next := Step(s, Unregister(worker));
    forall c <- next.registry.sockets ensures HasWorker(next.registry, next.threads, c) {
      StillHasWorker(s.registry, s.threads, next.registry, next.threads, c);
    }
    assert Alive(next.registry, next.threads);
    assert OwnSockets(next.threads);
  }

  lemma EndCorresponds(s: State, worker: nat)
    requires Corresponds(s) && worker in s.threads && s.threads[worker].phase == Serving
    ensures Corresponds(Step(s, EndRequest(worker)))
  {
    var next := Step(s, EndRequest(worker));
    forall c <- next.registry.sockets ensures HasWorker(next.registry, next.threads, c) {
      StillHasWorker(s.registry, s.threads, next.registry, next.threads, c);
    }
    assert Alive(next.registry, next.threads);
    assert OwnSockets(next.threads);
  }

  /** `stop` changes neither registry and no thread. */
  lemma StopCorresponds(s: State, e: Event)
    requires Corresponds(s) && !e.Connect? && !e.EndRequest? && !e.Unregister?
    ensures Corresponds(Step(s, e))
  {
    var next := Step(s, e);
    forall c <- next.registry.sockets ensures HasWorker(next.registry, next.threads, c) {
      StillHasWorker(s.registry, s.threads, next.registry, next.threads, c);
    }
  }

  lemma StepCorresponds(s: State, e: Event)
    requires Corresponds(s)
    ensures Corresponds(Step(s, e))
  {
    match e
    case Connect(socket, worker, starts) =>
      ConnectCorresponds(s, socket, worker, starts);
    case EndRequest(worker) =>
      if worker in s.threads && s.threads[worker].phase == Serving {
        EndCorresponds(s, worker);
      }
    case Unregister(worker) =>
      if worker in s.threads && s.threads[worker].phase == Leaving {
        UnregisterCorresponds(s, worker);
      }
    case _ =>
      StopCorresponds(s, e);
  }

  lemma StepShuts(s: State, e: Event)
    requires Shuts(s)
    ensures Shuts(Step(s, e))
  {
  }

  lemma StepKeeps(s: State, e: Event)
    requires Corresponds(s) && Shuts(s)
    ensures Corresponds(Step(s, e)) && Shuts(Step(s, e))
  {
    StepCorresponds(s, e);
    StepShuts(s, e);
  }

  lemma {:induction false} RunKeeps(s: State, events: seq<Event>)
    requires Corresponds(s) && Shuts(s)
    ensures Corresponds(Run(s, events)) && Shuts(Run(s, events))
    decreases |events|
  {
    if events != [] {
      StepKeeps(s, events[0]);
      RunKeeps(Step(s, events[0]), events[1..]);
    }
  }

  function SocketsOf(threads: map<nat, Worker>, workers: set<nat>): set<nat> {
    set w | w in workers && w in threads :: threads[w].socket
  }

  lemma {:induction false} SameSize(threads: map<nat, Worker>, workers: set<nat>)
    requires workers <= threads.Keys
    requires OwnSockets(threads)
    ensures |SocketsOf(threads, workers)| == |workers|
    decreases |workers|
  {
    if w :| w in workers {
      SameSize(threads, workers - {w});
      assert SocketsOf(threads, workers) == SocketsOf(threads, workers - {w}) + {threads[w].socket};
      assert threads[w].socket !in SocketsOf(threads, workers - {w});
    }
  }

  lemma Paired(s: State)
    requires Corresponds(s)
    ensures s.registry.sockets == SocketsOf(s.threads, s.registry.workers)
  {
    forall c <- s.registry.sockets ensures c in SocketsOf(s.threads, s.registry.workers) {
      assert HasWorker(s.registry, s.threads, c);
    }
  }

  /** In every run the registered connections are exactly those of the registered workers, one each. */
  lemma RegistriesCorrespond(events: seq<Event>)
    ensures
      var s := Run(BEGIN, events);
      && s.registry.workers <= s.threads.Keys
      && s.registry.sockets == SocketsOf(s.threads, s.registry.workers)
      && |s.registry.sockets| == |s.registry.workers|
      && forall v <- s.registry.workers, w <- s.registry.workers :: s.threads[v].socket == s.threads[w].socket ==> v == w
  {
    RunKeeps(BEGIN, events);
    var s := Run(BEGIN, events);
    Paired(s);
    SameSize(s.threads, s.registry.workers);
  }

  // ----- After closing

  lemma {:induction false} ClosingShrinks(s: State, events: seq<Event>)
    requires s.registry.closing
    ensures Run(s, events).registry.closing
    ensures Run(s, events).registry.sockets <= s.registry.sockets
    ensures Run(s, events).registry.workers <= s.registry.workers
    decreases |events|
  {
    if events != [] {
      ClosingShrinks(Step(s, events[0]), events[1..]);
    }
  }

  /** After `stop` has set closing, the registries only shrink; once every worker registered then is gone,
      both are empty. */
  lemma ClosingEmpties(events: seq<Event>, more: seq<Event>)
    requires Run(BEGIN, events).registry.closing
    ensures
      var before, after := Run(BEGIN, events), Run(Run(BEGIN, events), more);
      && after.registry.sockets <= before.registry.sockets
      && after.registry.workers <= before.registry.workers
      && ((forall w <- before.registry.workers :: w in after.threads && after.threads[w].phase == Gone) ==>
            after.registry.workers == {} && after.registry.sockets == {})
  {
    var before, after := Run(BEGIN, events), Run(Run(BEGIN, events), more);
    RunKeeps(BEGIN, events);
    RunKeeps(before, more);
    ClosingShrinks(before, more);
    if forall w <- before.registry.workers :: w in after.threads && after.threads[w].phase == Gone {
      assert forall w <- after.registry.workers :: w in before.registry.workers;
      Paired(after);
    }
  }

  /** When `stop` waits for the workers, every connection still registered has been shut. */
  lemma RegisteredAreShut(events: seq<Event>)
    requires
      var stop := Run(BEGIN, events).stop;
      !stop.Running? && !stop.Shutting?
    ensures Run(BEGIN, events).registry.sockets <= Run(BEGIN, events).shut
  {
    RunKeeps(BEGIN, events);
  }

  /** The report counts as many workers as connections, and none exactly when every worker ever started is
      gone and none failed to start. */
  lemma ReportIsExact(events: seq<Event>, e: Event)
    requires !Run(BEGIN, events).stop.Reported? && Step(Run(BEGIN, events), e).stop.Reported?
    ensures
      var s, report := Run(BEGIN, events), Step(Run(BEGIN, events), e).stop;
      && report.workerCount == report.socketCount
      && (report.workerCount == 0 <==> forall w <- s.threads :: s.threads[w].phase == Gone)
  {
    var s := Run(BEGIN, events);
    RunKeeps(BEGIN, events);
    RegistriesCorrespond(events);
    if s.registry.workers != {} {
      var w :| w in s.registry.workers;
      assert w in s.threads && s.threads[w].phase != Gone;
    }
  }

  // ----- Serving and stopping do happen

  /** A new connection that the serving thread accepts is registered with a serving worker, and a closing server shuts it
      instead. */
  lemma ConnectRegisters(s: State, socket: nat, worker: nat)
    requires s.accepting && socket !in s.seen && worker !in s.threads
    ensures
      var next := Step(s, Connect(socket, worker, true));
      && next.seen == s.seen + {socket}
      && (!s.registry.closing ==>
            && next.registry == Registry(false, s.registry.sockets + {socket}, s.registry.workers + {worker})
            && next.threads == s.threads[worker := Worker(socket, Serving)] && next.shut == s.shut)
      && (s.registry.closing ==>
            next.registry == s.registry && next.threads == s.threads && next.shut == s.shut + {socket})
  {
  }

  /** A serving worker that ends its request takes itself and its connection out. */
  lemma WorkerLeaves(s: State, worker: nat)
    requires worker in s.threads && s.threads[worker].phase == Serving
    ensures
      var next := Step(Step(s, EndRequest(worker)), Unregister(worker));
      && next.registry == Registry(s.registry.closing, s.registry.sockets - {s.threads[worker].socket},
                                   s.registry.workers - {worker})
      && next.threads == s.threads[worker := Worker(s.threads[worker].socket, Gone)]
  {
    var ended := Step(s, EndRequest(worker));
    assert ended.threads[worker].phase == Leaving && ended.threads[worker].socket == s.threads[worker].socket;
  }

  function Times(e: Event, n: nat): seq<Event> {
    if n == 0 then [] else [e] + Times(e, n - 1)
  }

  function Elements(list: seq<nat>): set<nat> {
    set x <- list
  }

  lemma {:induction false} RunConcat(s: State, a: seq<Event>, b: seq<Event>)
    ensures Run(s, a + b) == Run(Run(s, a), b)
    decreases |a|
  {
    if a == [] {
      assert a + b == b;
    } else {
      assert (a + b)[1..] == a[1..] + b;
      RunConcat(Step(s, a[0]), a[1..], b);
    }
  }

  lemma {:induction false} ShutsAll(s: State, connections: seq<nat>)
    requires s.stop == Shutting(connections)
    ensures Run(s, Times(ShutNext, |connections| + 1)) == s.(shut := s.shut + Elements(connections), stop := Waiting)
    decreases |connections|
  {
    assert Times(ShutNext, |connections| + 1)[1..] == Times(ShutNext, |connections|);
    var next := Step(s, ShutNext);
    if connections == [] {
      assert s.shut + Elements(connections) == s.shut;
    } else {
      ShutsAll(next, connections[1..]);
      assert Elements(connections) == {connections[0]} + Elements(connections[1..]);
      assert s.shut + Elements(connections) == s.shut + {connections[0]} + Elements(connections[1..]);
    }
  }

  lemma {:induction false} JoinsAll(s: State, workers: seq<nat>)
    requires s.stop == Joining(workers)
    requires forall w <- workers :: w in s.threads && s.threads[w].phase != Unstarted
    ensures Run(s, Times(JoinNext, |workers|)) == s.(stop := Joining([]))
    decreases |workers|
  {
    if workers != [] {
      assert Times(JoinNext, |workers|)[1..] == Times(JoinNext, |workers| - 1);
      JoinsAll(Step(s, JoinNext), workers[1..]);
    } else {
      assert s == s.(stop := Joining([]));
    }
  }

  lemma RunFirst(s: State, e: Event, more: seq<Event>)
    ensures Run(s, [e] + more) == Run(Step(s, e), more)
  {
    assert ([e] + more)[1..] == more;
  }

  lemma RunOne(s: State, e: Event)
    ensures Run(s, [e]) == Step(s, e)
  {
    RunFirst(s, e, []);
    assert [e] + [] == [e];
  }

  function ShuttingEvents(connections: seq<nat>): seq<Event> {
    [BeginStop(connections)] + Times(ShutNext, |connections| + 1)
  }

  function JoiningEvents(workers: seq<nat>): seq<Event> {
    [AcceptEnds] + ([ListWorkers(workers)] + Times(JoinNext, |workers|))
  }

  /** `stop` by itself, with the registered connections and workers listed in these orders. */
  function Stopping(connections: seq<nat>, workers: seq<nat>): seq<Event> {
    ShuttingEvents(connections) + JoiningEvents(workers) + [Report]
  }

  lemma ShutsListed(s: State, connections: seq<nat>)
    requires s.stop == Running && Lists(connections, s.registry.sockets)
    ensures Run(s, ShuttingEvents(connections)) ==
            s.(registry := s.registry.(closing := true), shut := s.shut + s.registry.sockets, stop := Waiting)
  {
    var begun := Step(s, BeginStop(connections));
    RunFirst(s, BeginStop(connections), Times(ShutNext, |connections| + 1));
    ShutsAll(begun, connections);
    assert Elements(connections) == s.registry.sockets;
  }

  lemma JoinsListed(s: State, workers: seq<nat>)
    requires s.stop == Waiting && Lists(workers, s.registry.workers)
    requires forall w <- s.registry.workers :: w in s.threads && s.threads[w].phase != Unstarted
    ensures Run(s, JoiningEvents(workers)) == s.(accepting := false, stop := Joining([]))
  {
    var ended := Step(s, AcceptEnds);
    var joins := Times(JoinNext, |workers|);
    RunFirst(s, AcceptEnds, [ListWorkers(workers)] + joins);
    RunFirst(ended, ListWorkers(workers), joins);
    JoinsAll(Step(ended, ListWorkers(workers)), workers);
  }

  /** From any running state without a worker that failed to start, `stop` shuts every registered connection and reports
      the workers and connections that are still registered. */
  lemma StopReports(s: State, connections: seq<nat>, workers: seq<nat>)
    requires s.stop == Running && Lists(connections, s.registry.sockets) && Lists(workers, s.registry.workers)
    requires forall w <- s.registry.workers :: w in s.threads && s.threads[w].phase != Unstarted
    ensures Run(s, Stopping(connections, workers)) ==
            s.(registry := s.registry.(closing := true), shut := s.shut + s.registry.sockets, accepting := false,
               stop := Reported(|s.registry.workers|, |s.registry.sockets|))
  {
    ShutsListed(s, connections);
    var waiting := Run(s, ShuttingEvents(connections));
    JoinsListed(waiting, workers);
    RunConcat(s, ShuttingEvents(connections), JoiningEvents(workers));
    RunConcat(s, ShuttingEvents(connections) + JoiningEvents(workers), [Report]);
    RunOne(Run(waiting, JoiningEvents(workers)), Report);
  }
}
