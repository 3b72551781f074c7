/**
 * The REST controller over the listener container manager. Each HTTP
 * endpoint becomes a method or a function; the exception an endpoint
 * throws becomes the Failed status it returns. A ghost log records every
 * command the controller sends to a container and every change it makes
 * to the catalog, so that what an operation issued can be stated without
 * saying how the library carries it out.
 */
module ConsumerController {
  import opened Wrappers
  import opened Containers
  import opened Registry
  import opened Lifecycle
  import opened Projection

  /** The body of a create request. */
  datatype Request = Request(topic: string, startImmediately: bool)

  class KafkaConsumerController {
    const manager: ContainerManager
    ghost var log: seq<Event>

    ghost predicate Valid()
      reads manager
    {
      manager.Valid()
    }

    constructor (manager: ContainerManager)
      requires manager.Valid()
      ensures this.manager == manager && log == [] && Valid()
    {
      this.manager := manager;
      log := [];
    }

    /**
     * create: registers a new listener under a fresh id (a random UUID in
     * the application, a parameter here), started at once if asked.
     */
    method Create(req: Request, id: string)
      requires Valid() && id !in manager.containers
      modifies this, manager
      ensures Valid()
      ensures manager.Value() == Insert(old(manager.Value()), NewContainer(id, req.topic, manager.groupId, req.startImmediately))
      ensures log == old(log) + Creation(id, req.startImmediately)
    {
      manager.RegisterListener(id, req.topic, req.startImmediately);
      log := log + Creation(id, req.startImmediately);
    }

    /** getListenerContainer: the container registered under id, or NotFound. */
    function ListenerContainer(id: string): (r: Result<Container, Error>)
      reads manager
      ensures r.Ok? <==> id in manager.containers
      ensures r.Ok? ==> r.value == manager.containers[id]
      ensures r.Err? ==> r.error == NotFound
    {
      match manager.GetContainer(id)
      case None => Err(NotFound)
      case Some(c) => Ok(c)
    }

    /** get: the response for one container, or NotFound. */
    function Get(id: string): (r: Result<Response, Error>)
      reads manager
      ensures r.Ok? <==> id in manager.containers
      ensures r.Ok? ==> r.value == ToResponse(manager.containers[id])
      ensures r.Err? ==> r.error == NotFound
    {
      match ListenerContainer(id)
      case Err(e) => Err(e)
      case Ok(c) => Ok(ToResponse(c))
    }

    /**
     * list: one response per registered container, in listing order; the
     * i-th is exactly what get returns for the i-th listed id.
     */
    function List(): (r: seq<Response>)
      reads manager
      requires Valid()
      ensures |r| == |manager.listing|
      ensures forall i :: 0 <= i < |r| ==> r[i] == ToResponse(manager.containers[manager.listing[i]])
      ensures forall i :: 0 <= i < |r| ==> Get(manager.listing[i]) == Ok(r[i])
    {
      Responses(manager.ListContainers())
    }

    /** activate: start the container unless it already runs. */
    method Activate(id: string) returns (s: Status)
      requires Valid()
      modifies this, manager
      ensures Valid()
      ensures var o := Control(Start, old(manager.Value()), id);
        s == o.status && log == old(log) + o.issued && manager.Value() == o.after
    {
      var found := ListenerContainer(id);
      if found.Err? {
        return Failed(found.error);
      }
      var c := found.value;
      if c.running {
        return Failed(AlreadyRunning);
      }
      manager.Command(id, Start);
      log := log + [Sent(id, Start)];
      s := Done;
    }

    /** pause: ask a running container to pause, unless it is paused or a pause is pending. */
    method Pause(id: string) returns (s: Status)
      requires Valid()
      modifies this, manager
      ensures Valid()
      ensures var o := Control(Cmd.Pause, old(manager.Value()), id);
        s == o.status && log == old(log) + o.issued && manager.Value() == o.after
    {
      var found := ListenerContainer(id);
      if found.Err? {
        return Failed(found.error);
      }
      var c := found.value;
      if !c.running {
        return Failed(NotRunning);
      } else if c.paused {
        return Failed(AlreadyPaused);
      } else if c.pauseRequested {
        return Failed(PauseAlreadyRequested);
      }
      manager.Command(id, Cmd.Pause);
      log := log + [Sent(id, Cmd.Pause)];
      s := Done;
    }

    /** resume: resume a running container that has actually paused. */
    method Resume(id: string) returns (s: Status)
      requires Valid()
      modifies this, manager
      ensures Valid()
      ensures var o := Control(Cmd.Resume, old(manager.Value()), id);
        s == o.status && log == old(log) + o.issued && manager.Value() == o.after
    {
      var found := ListenerContainer(id);
      if found.Err? {
        return Failed(found.error);
      }
      var c := found.value;
      if !c.running {
        return Failed(NotRunning);
      } else if !c.paused {
        return Failed(NotPaused);
      }
      manager.Command(id, Cmd.Resume);
      log := log + [Sent(id, Cmd.Resume)];
      s := Done;
    }

    /** stop: stop a running container. */
    method Stop(id: string) returns (s: Status)
      requires Valid()
      modifies this, manager
      ensures Valid()
      ensures var o := Control(Cmd.Stop, old(manager.Value()), id);
        s == o.status && log == old(log) + o.issued && manager.Value() == o.after
    {
      var found := ListenerContainer(id);
      if found.Err? {
        return Failed(found.error);
      }
      var c := found.value;
      if !c.running {
        return Failed(AlreadyStopped);
      }
      manager.Command(id, Cmd.Stop);
      log := log + [Sent(id, Cmd.Stop)];
      s := Done;
    }

    /** delete: stop the container, running or not, then unregister it. */
    method Delete(id: string) returns (s: Status)
      requires Valid()
      modifies this, manager
      ensures Valid()
      ensures var o := Deletion(old(manager.Value()), id);
        s == o.status && log == old(log) + o.issued && manager.Value() == o.after
    {
      var found := ListenerContainer(id);
      if found.Err? {
        return Failed(found.error);
      }
      manager.Command(id, Cmd.Stop);
      manager.UnregisterListener(id);
      log := log + [Sent(id, Cmd.Stop), Unregistered(id)];
      s := Done;
    }

    /**
     * stopAll: stop each listed container in turn; the first one that is
     * not running makes stop throw, and that ends the whole operation.
     */
    method StopAll() returns (s: Status)
      requires Valid()
      modifies this, manager
      ensures Valid()
      ensures var o := ForEach(StopEach, old(manager.Value()), old(manager.ListContainers()));
        s == o.status && log == old(log) + o.issued && manager.Value() == o.after
      ensures var listed := old(manager.ListContainers());
        (s == Done <==> forall i :: 0 <= i < |listed| ==> listed[i].running)
        && (s == Done ==> log == old(log) + StopsOf(listed))
        && (s != Done ==> s == Failed(AlreadyStopped))
      ensures var listed := old(manager.ListContainers()); var n := |log| - |old(log)|;
        && 0 <= n <= |listed|
        && manager.listing == old(manager.listing) && manager.containers.Keys == old(manager.containers.Keys)
        && (forall j :: 0 <= j < n ==> manager.containers[listed[j].listenerId] == Effect(listed[j], Cmd.Stop))
        && (forall j :: n <= j < |listed| ==> manager.containers[listed[j].listenerId] == listed[j])
    {
      var cs := manager.ListContainers();
      ghost var cat0 := manager.Value();
      ghost var log0 := log;
      ghost var acc: seq<Event> := [];
      assert cs[0..] == cs;
      PrefixedNothing(ForEach(StopEach, cat0, cs));
      var k := 0;
      s := Done;
      while k < |cs| && s == Done
        invariant 0 <= k <= |cs|
        invariant Valid()
        invariant log == log0 + acc
        invariant s == Done ==> ForEach(StopEach, cat0, cs) == Prefixed(acc, ForEach(StopEach, manager.Value(), cs[k..]))
        invariant s != Done ==> ForEach(StopEach, cat0, cs) == Outcome(s, acc, manager.Value())
      {
        ghost var before := manager.Value();
        ForEachStep(StopEach, cat0, cs, k, acc, before);
        ghost var step := Control(Cmd.Stop, before, cs[k].listenerId);
        s := Stop(cs[k].listenerId);
        AppendAssoc(log0, acc, step.issued);
        acc := acc + step.issued;
        k := k + 1;
      }
      ghost var r := ForEach(StopEach, cat0, cs);
      assert s == r.status && log == log0 + r.issued;
      StopAllOverListing(cat0, cs);
    }

    /**
     * deleteAll: delete each listed container in turn. Delete of a listed id
     * cannot fail, so every container is stopped and unregistered and the
     * catalog ends empty.
     */
    method DeleteAll() returns (s: Status)
      requires Valid()
      modifies this, manager
      ensures Valid()
      ensures var o := ForEach(DeleteEach, old(manager.Value()), old(manager.ListContainers()));
        s == o.status && log == old(log) + o.issued && manager.Value() == o.after
      ensures s == Done && manager.Value() == Catalog(map[], [])
      ensures log == old(log) + DeletesOf(old(manager.ListContainers()))
    {
      var cs := manager.ListContainers();
      ghost var cat0 := manager.Value();
      ghost var log0 := log;
      ghost var acc: seq<Event> := [];
      DeleteAllEmpties(cat0);
      assert cs[0..] == cs;
      PrefixedNothing(ForEach(DeleteEach, cat0, cs));
      var k := 0;
      s := Done;
      while k < |cs| && s == Done
        invariant 0 <= k <= |cs|
        invariant Valid()
        invariant log == log0 + acc
        invariant s == Done ==> ForEach(DeleteEach, cat0, cs) == Prefixed(acc, ForEach(DeleteEach, manager.Value(), cs[k..]))
        invariant s != Done ==> ForEach(DeleteEach, cat0, cs) == Outcome(s, acc, manager.Value())
      {
        ghost var before := manager.Value();
        ForEachStep(DeleteEach, cat0, cs, k, acc, before);
        ghost var step := Deletion(before, cs[k].listenerId);
        s := Delete(cs[k].listenerId);
        AppendAssoc(log0, acc, step.issued);
        acc := acc + step.issued;
        k := k + 1;
      }
    }
  }
}
