/**
 * The lifecycle rules the controller enforces, stated as functions on the
 * catalog value. They are the specification the controller's methods are
 * proved against.
 *
 * The controller reads three flags of a container; together they place it in
 * one of four phases, and the rule for each command is a table over phases.
 * A command the table allows is issued exactly once; a command it refuses is
 * answered with the table's error and nothing is issued.
 */
module Lifecycle {
  import opened Wrappers
  import opened Containers
  import opened Registry

  /** The errors the controller raises. */
  datatype Error =
    | NotFound
    | AlreadyRunning
    | NotRunning
    | AlreadyPaused
    | PauseAlreadyRequested
    | NotPaused
    | AlreadyStopped

  /** How a controller operation ends: normally, or with the error it throws. */
  datatype Status = Done | Failed(error: Error)

  /** One side effect on a container or on the catalog, as the log records it. */
  datatype Event =
    | Sent(listenerId: string, cmd: Cmd)
    | Registered(listenerId: string)
    | Unregistered(listenerId: string)

  /** What an operation returns, what it issued, and the catalog it leaves. */
  datatype Outcome = Outcome(status: Status, issued: seq<Event>, after: Catalog)

  /** The phase a container's flags put it in. A container that is not running is Idle, whatever else it says. */
  datatype Phase = Idle | Running | PauseRequested | Paused

  function PhaseOf(c: Container): Phase
  {
    if !c.running then Idle
    else if c.paused then Paused
    else if c.pauseRequested then PauseRequested
    else Running
  }

  /**
   * The lifecycle table: None when the command is allowed in the phase,
   * otherwise the error that refuses it.
   */
  function Verdict(cmd: Cmd, p: Phase): Option<Error>
  {
    match cmd
    case Start => if p == Idle then None else Some(AlreadyRunning)
    case Pause =>
      (match p
       case Idle => Some(NotRunning)
       case Paused => Some(AlreadyPaused)
       case PauseRequested => Some(PauseAlreadyRequested)
       case Running => None)
    case Resume =>
      (match p
       case Idle => Some(NotRunning)
       case Paused => None
       case _ => Some(NotPaused))
    case Stop => if p == Idle then Some(AlreadyStopped) else None
  }

  /** The table read back in terms of the three flags, with the order in which the errors take precedence. */
  lemma VerdictOnFlags(c: Container)
    ensures Verdict(Start, PhaseOf(c)) == if c.running then Some(AlreadyRunning) else None
    ensures Verdict(Pause, PhaseOf(c)).None? <==> c.running && !c.paused && !c.pauseRequested
    ensures !c.running ==> Verdict(Pause, PhaseOf(c)) == Some(NotRunning)
    ensures c.running && c.paused ==> Verdict(Pause, PhaseOf(c)) == Some(AlreadyPaused)
    ensures c.running && !c.paused && c.pauseRequested ==> Verdict(Pause, PhaseOf(c)) == Some(PauseAlreadyRequested)
    ensures Verdict(Resume, PhaseOf(c)).None? <==> c.running && c.paused
    ensures !c.running ==> Verdict(Resume, PhaseOf(c)) == Some(NotRunning)
    ensures c.running && !c.paused ==> Verdict(Resume, PhaseOf(c)) == Some(NotPaused)
    ensures Verdict(Stop, PhaseOf(c)) == if c.running then None else Some(AlreadyStopped)
  {
  }

  /**
   * A guarded control operation (activate, pause, resume, stop) on one id:
   * NotFound for an unknown id, the table's error for a refused command, and
   * otherwise exactly one command sent to that container and no other change.
   */
  function Control(cmd: Cmd, cat: Catalog, id: string): (r: Outcome)
    ensures id !in cat.containers ==> r == Outcome(Failed(NotFound), [], cat)
    ensures r.status.Failed? ==> r.issued == [] && r.after == cat
    ensures r.status == Done <==> r.issued == [Sent(id, cmd)]
    ensures id in cat.containers ==> (r.status == Done <==> Verdict(cmd, PhaseOf(cat.containers[id])).None?)
    ensures id in cat.containers && r.status.Failed? ==> Verdict(cmd, PhaseOf(cat.containers[id])) == Some(r.status.error)
    ensures r.status == Done ==> r.after.containers == cat.containers[id := Effect(cat.containers[id], cmd)]
    ensures r.after.listing == cat.listing && r.after.containers.Keys == cat.containers.Keys
    ensures WellFormed(cat) ==> WellFormed(r.after)
  {
    if id !in cat.containers then Outcome(Failed(NotFound), [], cat)
    else
      var c := cat.containers[id];
      match Verdict(cmd, PhaseOf(c))
      case Some(e) => Outcome(Failed(e), [], cat)
      case None => Outcome(Done, [Sent(id, cmd)], Catalog(cat.containers[id := Effect(c, cmd)], cat.listing))
  }

  /**
   * Deleting one id: NotFound for an unknown id; otherwise a stop sent
   * whatever the container's phase, then the id unregistered, and every
   * other entry left as it was.
   */
  function Deletion(cat: Catalog, id: string): (r: Outcome)
    ensures id !in cat.containers ==> r == Outcome(Failed(NotFound), [], cat)
    ensures id in cat.containers ==> r.status == Done && r.issued == [Sent(id, Stop), Unregistered(id)]
    ensures r.status.Failed? ==> r.issued == [] && r.after == cat
    ensures r.after.containers.Keys == cat.containers.Keys - {id}
    ensures forall x :: x in r.after.containers ==> r.after.containers[x] == cat.containers[x]
    ensures r.status == Done ==> r.after.listing == Without(cat.listing, id)
    ensures WellFormed(cat) ==> WellFormed(r.after)
  {
    if id !in cat.containers then Outcome(Failed(NotFound), [], cat)
    else
      var stopped := Catalog(cat.containers[id := Effect(cat.containers[id], Stop)], cat.listing);
      Outcome(Done, [Sent(id, Stop), Unregistered(id)], Remove(stopped, id))
  }

  /** The events create logs: the registration, and a start when one is asked for. */
  function Creation(id: string, startImmediately: bool): (e: seq<Event>)
    ensures |e| == if startImmediately then 2 else 1
    ensures e[0] == Registered(id)
    ensures startImmediately ==> e[1] == Sent(id, Start)
  {
    [Registered(id)] + if startImmediately then [Sent(id, Start)] else []
  }

  /** The two bulk operations: stop each listed container, or delete each one. */
  datatype Sweep = StopEach | DeleteEach

  function Visit(sweep: Sweep, cat: Catalog, id: string): (r: Outcome)
    ensures sweep == StopEach ==> r.after.listing == cat.listing && r.after.containers.Keys == cat.containers.Keys
    ensures r.after.containers.Keys <= cat.containers.Keys
    ensures WellFormed(cat) ==> WellFormed(r.after)
  {
    match sweep
    case StopEach => Control(Stop, cat, id)
    case DeleteEach => Deletion(cat, id)
  }

  /** An outcome with some events issued before it. */
  function Prefixed(issued: seq<Event>, o: Outcome): Outcome
  {
    Outcome(o.status, issued + o.issued, o.after)
  }

  lemma PrefixedNothing(o: Outcome)
    ensures Prefixed([], o) == o
  {
    assert [] + o.issued == o.issued;
  }

  /**
   * A bulk operation over a listing taken beforehand: each container is
   * visited in order by its id, and the first failure ends the sweep, with
   * nothing issued for the containers after it.
   */
  function ForEach(sweep: Sweep, cat: Catalog, cs: seq<Container>): (r: Outcome)
    decreases |cs|
    ensures sweep == StopEach ==> r.after.listing == cat.listing && r.after.containers.Keys == cat.containers.Keys
    ensures r.after.containers.Keys <= cat.containers.Keys
    ensures WellFormed(cat) ==> WellFormed(r.after)
  {
    if cs == [] then Outcome(Done, [], cat)
    else
      var first := Visit(sweep, cat, cs[0].listenerId);
      if first.status.Failed? then first
      else Prefixed(first.issued, ForEach(sweep, first.after, cs[1..]))
  }

  /** A sweep over a non-empty listing, unfolded once. */
  lemma ForEachFirst(sweep: Sweep, cat: Catalog, cs: seq<Container>)
    requires cs != []
    ensures var first := Visit(sweep, cat, cs[0].listenerId);
      ForEach(sweep, cat, cs) == if first.status.Failed? then first else Prefixed(first.issued, ForEach(sweep, first.after, cs[1..]))
  {
  }

  /**
   * One step of a sweep, taken at position k of the listing: if the whole
   * sweep is what was issued so far followed by the sweep of the rest, it
   * stays so after visiting the k-th container, and a failure there is the
   * sweep's end.
   */
  lemma ForEachStep(sweep: Sweep, cat0: Catalog, cs: seq<Container>, k: nat, acc: seq<Event>, before: Catalog)
    requires k < |cs|
    requires ForEach(sweep, cat0, cs) == Prefixed(acc, ForEach(sweep, before, cs[k..]))
    ensures var o := Visit(sweep, before, cs[k].listenerId);
      && (o.status == Done ==> ForEach(sweep, cat0, cs) == Prefixed(acc + o.issued, ForEach(sweep, o.after, cs[k + 1..])))
      && (o.status != Done ==> ForEach(sweep, cat0, cs) == Outcome(o.status, acc + o.issued, o.after))
  {
    var rest := cs[k..];
    assert rest[0] == cs[k] && rest[1..] == cs[k + 1..];
    ForEachFirst(sweep, before, rest);
    var o := Visit(sweep, before, cs[k].listenerId);
    if o.status == Done {
      AppendAssoc(acc, o.issued, ForEach(sweep, o.after, cs[k + 1..]).issued);
    }
  }

  lemma AppendAssoc<T>(a: seq<T>, b: seq<T>, c: seq<T>)
    ensures a + b + c == a + (b + c)
  {
  }

  /** The ids of a listing of containers. */
  function IdsOf(cs: seq<Container>): (ids: seq<string>)
    ensures |ids| == |cs|
    ensures forall i :: 0 <= i < |cs| ==> ids[i] == cs[i].listenerId
  {
    if cs == [] then [] else [cs[0].listenerId] + IdsOf(cs[1..])
  }

  /** The stops a successful stop-all sends, one per container, in order. */
  function StopsOf(cs: seq<Container>): seq<Event>
  {
    if cs == [] then [] else [Sent(cs[0].listenerId, Stop)] + StopsOf(cs[1..])
  }

  /** What a delete-all issues: for each container in order, a stop and then its unregistration. */
  function DeletesOf(cs: seq<Container>): seq<Event>
  {
    if cs == [] then [] else [Sent(cs[0].listenerId, Stop), Unregistered(cs[0].listenerId)] + DeletesOf(cs[1..])
  }

  /** A listing taken from the catalog: distinct ids, each naming the container as the catalog holds it. */
  ghost predicate Snapshot(cat: Catalog, cs: seq<Container>)
  {
    && Distinct(IdsOf(cs))
    && forall i :: 0 <= i < |cs| ==> cs[i].listenerId in cat.containers && cat.containers[cs[i].listenerId] == cs[i]
  }

  lemma ListingIsSnapshot(cat: Catalog)
    requires WellFormed(cat)
    ensures Snapshot(cat, Listed(cat))
    ensures IdsOf(Listed(cat)) == cat.listing
  {
    assert IdsOf(Listed(cat)) == cat.listing;
  }

  /** Taking the first container off a snapshot leaves a snapshot of the rest, whose ids all differ from the first. */
  lemma SnapshotTail(cat: Catalog, cs: seq<Container>)
    requires cs != [] && Snapshot(cat, cs)
    ensures Distinct(IdsOf(cs[1..]))
    ensures forall j :: 1 <= j < |cs| ==> cs[j].listenerId != cs[0].listenerId
  {
    var ids := IdsOf(cs);
    assert IdsOf(cs[1..]) == ids[1..];
    forall j | 1 <= j < |cs| ensures cs[j].listenerId != cs[0].listenerId {
      assert ids[0] != ids[j];
    }
  }

  /**
   * Stop-all over a snapshot: the containers before the first non-running
   * one each get one stop, in order; that one raises AlreadyStopped and no
   * later container gets anything.
   */
  lemma StopEachStopsRunningPrefix(cat: Catalog, cs: seq<Container>)
    requires Snapshot(cat, cs)
    ensures var r := ForEach(StopEach, cat, cs);
      && |r.issued| <= |cs|
      && r.issued == StopsOf(cs[..|r.issued|])
      && (forall j :: 0 <= j < |r.issued| ==> cs[j].running)
      && (r.status == Done ==> |r.issued| == |cs|)
      && (r.status.Failed? ==> r.status.error == AlreadyStopped && |r.issued| < |cs| && !cs[|r.issued|].running)
  {
    StopEachIssuesStops(cat, cs);
    StopEachEndsAtStopped(cat, cs);
  }

  /** The events stop-all issues are one stop for each container of a prefix of the listing, all of them running. */
  lemma {:induction false} StopEachIssuesStops(cat: Catalog, cs: seq<Container>)
    requires Snapshot(cat, cs)
    decreases |cs|
    ensures var r := ForEach(StopEach, cat, cs);
      && |r.issued| <= |cs|
      && r.issued == StopsOf(cs[..|r.issued|])
      && (forall j :: 0 <= j < |r.issued| ==> cs[j].running)
  {
    if cs == [] {
      assert cs[..0] == [];
    } else if cs[0].running {
      var after := StopRunningHead(cat, cs);
      var rest := ForEach(StopEach, after, cs[1..]);
      StopEachIssuesStops(after, cs[1..]);
      StopsCons(cs, rest.issued);
      forall j | 1 <= j < |cs|
        ensures cs[j] == cs[1..][j - 1]
      {
      }
    } else {
      ForEachFirst(StopEach, cat, cs);
      assert cat.containers[cs[0].listenerId] == cs[0];
      assert cs[..0] == [];
    }
  }

  /** Stop-all either reaches the end of the listing or fails with AlreadyStopped on the first container it did not stop, which was not running. */
  lemma {:induction false} StopEachEndsAtStopped(cat: Catalog, cs: seq<Container>)
    requires Snapshot(cat, cs)
    decreases |cs|
    ensures var r := ForEach(StopEach, cat, cs);
      && (r.status == Done ==> |r.issued| == |cs|)
      && (r.status.Failed? ==> r.status.error == AlreadyStopped && |r.issued| < |cs| && !cs[|r.issued|].running)
  {
    if cs == [] {
    } else if cs[0].running {
      var after := StopRunningHead(cat, cs);
      StopEachEndsAtStopped(after, cs[1..]);
      var rest := ForEach(StopEach, after, cs[1..]);
      var r := ForEach(StopEach, cat, cs);
      assert r.status == rest.status && |r.issued| == 1 + |rest.issued|;
      if rest.status.Failed? {
        assert cs[|r.issued|] == cs[1..][|rest.issued|];
      }
    } else {
      ForEachFirst(StopEach, cat, cs);
      assert cat.containers[cs[0].listenerId] == cs[0];
    }
  }

  /** Stopping a running first container of a snapshot issues one stop and leaves a snapshot of the rest to sweep. */
  lemma StopRunningHead(cat: Catalog, cs: seq<Container>) returns (after: Catalog)
    requires Snapshot(cat, cs) && cs != [] && cs[0].running
    ensures Snapshot(after, cs[1..])
    ensures after.containers == cat.containers[cs[0].listenerId := Effect(cs[0], Stop)]
    ensures forall j :: 1 <= j < |cs| ==> cs[j].listenerId != cs[0].listenerId
    ensures ForEach(StopEach, cat, cs) == Prefixed([Sent(cs[0].listenerId, Stop)], ForEach(StopEach, after, cs[1..]))
  {
    ForEachFirst(StopEach, cat, cs);
    assert cat.containers[cs[0].listenerId] == cs[0];
    after := Control(Stop, cat, cs[0].listenerId).after;
    SnapshotTail(cat, cs);
  }

  /** A stop for the first container followed by stops for a prefix of the others is a stop for each container of a longer prefix. */
  lemma StopsCons(cs: seq<Container>, issued: seq<Event>)
    requires cs != [] && |issued| < |cs|
    requires issued == StopsOf(cs[1..][..|issued|])
    ensures [Sent(cs[0].listenerId, Stop)] + issued == StopsOf(cs[..|issued| + 1])
  {
    assert cs[..|issued| + 1][1..] == cs[1..][..|issued|];
  }

  /**
   * What stop-all leaves behind: each container of the stopped prefix is
   * now as the stop left it, and every other container, whether listed
   * after the abort point or not listed at all, is as it was.
   */
  lemma {:induction false} StopEachLeavesRest(cat: Catalog, cs: seq<Container>)
    requires Snapshot(cat, cs)
    decreases |cs|
    ensures var r := ForEach(StopEach, cat, cs);
      && |r.issued| <= |cs|
      && (forall j :: 0 <= j < |r.issued| ==> r.after.containers[cs[j].listenerId] == Effect(cs[j], Stop))
      && (forall j :: |r.issued| <= j < |cs| ==> r.after.containers[cs[j].listenerId] == cs[j])
      && (forall x :: x in cat.containers && x !in IdsOf(cs) ==> r.after.containers[x] == cat.containers[x])
  {
    if cs == [] {
    } else if cs[0].running {
      var after := StopRunningHead(cat, cs);
      StopEachLeavesRest(after, cs[1..]);
      var id := cs[0].listenerId;
      assert IdsOf(cs) == [id] + IdsOf(cs[1..]);
      assert id !in IdsOf(cs[1..]);
      forall j | 1 <= j < |cs|
        ensures cs[j] == cs[1..][j - 1]
      {
      }
    } else {
      ForEachFirst(StopEach, cat, cs);
      assert cat.containers[cs[0].listenerId] == cs[0];
    }
  }

  /**
   * Hence stop-all completes exactly when every listed container was
   * running, and then every one of them was sent one stop, in order.
   */
  lemma StopAllIffAllRunning(cat: Catalog, cs: seq<Container>)
    requires Snapshot(cat, cs)
    ensures var r := ForEach(StopEach, cat, cs);
      && (r.status == Done <==> forall i :: 0 <= i < |cs| ==> cs[i].running)
      && (r.status == Done ==> r.issued == StopsOf(cs))
      && (r.status != Done ==> r.status == Failed(AlreadyStopped))
  {
    StopEachStopsRunningPrefix(cat, cs);
    var r := ForEach(StopEach, cat, cs);
    if r.status == Done {
      assert cs[..|cs|] == cs;
    }
  }

  /** The same, for the listing the catalog itself gives. */
  lemma StopAllOverListing(cat: Catalog, cs: seq<Container>)
    requires WellFormed(cat) && cs == Listed(cat)
    ensures var r := ForEach(StopEach, cat, cs);
      && (r.status == Done <==> forall i :: 0 <= i < |cs| ==> cs[i].running)
      && (r.status == Done ==> r.issued == StopsOf(cs))
      && (r.status != Done ==> r.status == Failed(AlreadyStopped))
    ensures var r := ForEach(StopEach, cat, cs);
      && |r.issued| <= |cs|
      && r.after.listing == cat.listing && r.after.containers.Keys == cat.containers.Keys
      && (forall j :: 0 <= j < |r.issued| ==> r.after.containers[cs[j].listenerId] == Effect(cs[j], Stop))
      && (forall j :: |r.issued| <= j < |cs| ==> r.after.containers[cs[j].listenerId] == cs[j])
  {
    ListingIsSnapshot(cat);
    StopAllIffAllRunning(cat, cs);
    StopEachLeavesRest(cat, cs);
  }

  /**
   * Delete-all over a snapshot never fails: every container gets a stop and
   * an unregistration, in order, and exactly the listed ids leave the catalog.
   */
  lemma {:induction false} DeleteEachRemovesListed(cat: Catalog, cs: seq<Container>)
    requires Snapshot(cat, cs)
    decreases |cs|
    ensures var r := ForEach(DeleteEach, cat, cs);
      && r.status == Done
      && r.issued == DeletesOf(cs)
      && (forall x :: x in r.after.containers <==> x in cat.containers && x !in IdsOf(cs))
      && (forall x :: x in r.after.containers ==> r.after.containers[x] == cat.containers[x])
  {
    if cs != [] {
      var c := cs[0];
      var first := Deletion(cat, c.listenerId);
      SnapshotTail(cat, cs);
      assert Snapshot(first.after, cs[1..]);
      DeleteEachRemovesListed(first.after, cs[1..]);
      assert IdsOf(cs) == [c.listenerId] + IdsOf(cs[1..]);
    }
  }

  lemma NothingLeft(cat: Catalog)
    requires WellFormed(cat)
    requires forall x :: x !in cat.containers
    ensures cat == Catalog(map[], [])
  {
    if cat.listing != [] {
      HeadIsListed(cat.listing);
      assert false;
    }
  }

  lemma HeadIsListed(s: seq<string>)
    requires s != []
    ensures s[0] in s
  {
  }

  /** Delete-all over the whole listing leaves the catalog empty. */
  lemma DeleteAllEmpties(cat: Catalog)
    requires WellFormed(cat)
    ensures ForEach(DeleteEach, cat, Listed(cat)) == Outcome(Done, DeletesOf(Listed(cat)), Catalog(map[], []))
  {
    var cs := Listed(cat);
    ListingIsSnapshot(cat);
    DeleteEachRemovesListed(cat, cs);
    var r := ForEach(DeleteEach, cat, cs);
    assert forall x :: x in r.after.containers ==> x in cat.containers && x !in cat.listing;
    NothingLeft(r.after);
  }
}
