/**
 * Properties that relate several operations: sequences of registrations,
 * and the lifecycle walks a caller of the controller would make. They are
 * stated on the catalog values the controller's methods are proved against,
 * under the library assumptions of the Containers module.
 */
module Scenarios {
  import opened Wrappers
  import opened Containers
  import opened Registry
  import opened Lifecycle
  import opened Projection

  /** The consumer thread of one container reaches its poll boundary. */
  function Poll(cat: Catalog, id: string): (r: Catalog)
    ensures r.listing == cat.listing && r.containers.Keys == cat.containers.Keys
  {
    if id in cat.containers
    then Catalog(cat.containers[id := PollBoundary(cat.containers[id])], cat.listing)
    else cat
  }

  /** Containers whose ids are distinct and not yet registered. */
  ghost predicate Fresh(cat: Catalog, cs: seq<Container>)
  {
    Distinct(IdsOf(cs)) && forall i :: 0 <= i < |cs| ==> cs[i].listenerId !in cat.containers
  }

  /** Registering each container in turn. */
  function RegisterAll(cat: Catalog, cs: seq<Container>): Catalog
    requires Fresh(cat, cs)
    decreases |cs|
  {
    if cs == [] then cat
    else
      assert IdsOf(cs)[1..] == IdsOf(cs[1..]);
      assert forall j :: 1 <= j < |cs| ==> IdsOf(cs)[0] != IdsOf(cs)[j];
      RegisterAll(Insert(cat, cs[0]), cs[1..])
  }

  /**
   * After registrations with distinct fresh ids, the listing is the old one
   * followed by the new ids in registration order, and each new id holds
   * the container registered under it.
   */
  lemma {:induction false} RegisterAllListsEach(cat: Catalog, cs: seq<Container>)
    requires WellFormed(cat) && Fresh(cat, cs)
    decreases |cs|
    ensures var r := RegisterAll(cat, cs);
      && WellFormed(r)
      && r.listing == cat.listing + IdsOf(cs)
      && (forall i :: 0 <= i < |cs| ==> r.containers[cs[i].listenerId] == cs[i])
      && (forall x :: x in cat.containers ==> r.containers[x] == cat.containers[x])
  {
    if cs != [] {
      var next := Insert(cat, cs[0]);
      assert IdsOf(cs)[1..] == IdsOf(cs[1..]);
      assert forall j :: 1 <= j < |cs| ==> IdsOf(cs)[0] != IdsOf(cs)[j];
      RegisterAllListsEach(next, cs[1..]);
      assert IdsOf(cs) == [cs[0].listenerId] + IdsOf(cs[1..]);
      AppendAssoc(cat.listing, [cs[0].listenerId], IdsOf(cs[1..]));
      forall i | 0 <= i < |cs| ensures RegisterAll(cat, cs).containers[cs[i].listenerId] == cs[i] {
        if i > 0 { assert cs[i] == cs[1..][i - 1]; }
      }
    }
  }

  /**
   * Starting from the empty catalog, listing returns exactly the registered
   * containers, none lost and none repeated, in registration order, and the
   * list response has one entry per registration.
   */
  lemma ListAfterRegistrations(cs: seq<Container>)
    requires Fresh(Catalog(map[], []), cs)
    ensures WellFormed(RegisterAll(Catalog(map[], []), cs))
    ensures Listed(RegisterAll(Catalog(map[], []), cs)) == cs
    ensures |Responses(Listed(RegisterAll(Catalog(map[], []), cs)))| == |cs|
  {
    RegisterAllListsEach(Catalog(map[], []), cs);
    var r := RegisterAll(Catalog(map[], []), cs);
    assert r.listing == IdsOf(cs);
    assert Listed(r) == cs;
  }

  /** Creating a listener that starts at once: the list shows that one consumer, active. */
  lemma CreateStartedShowsActive(id: string, topic: string, groupId: string)
    ensures var cat := Insert(Catalog(map[], []), NewContainer(id, topic, groupId, true));
      && WellFormed(cat)
      && |Responses(Listed(cat))| == 1
      && Responses(Listed(cat))[0].listenerId == id
      && Responses(Listed(cat))[0].active
      && Responses(Listed(cat))[0].assignments.None?
  {
  }

  /** Pausing a listener that was never started fails with NotRunning and issues nothing. */
  lemma PauseNeverStarted(cat: Catalog, id: string, topic: string, groupId: string)
    requires id !in cat.containers
    ensures var o := Control(Pause, Insert(cat, NewContainer(id, topic, groupId, false)), id);
      o.status == Failed(NotRunning) && o.issued == []
  {
  }

  /** Stop twice: the first succeeds, the second fails with AlreadyStopped, and the container ends stopped. */
  lemma StopTwice(cat: Catalog, id: string)
    requires id in cat.containers && cat.containers[id].running
    ensures var first := Control(Stop, cat, id);
      var second := Control(Stop, first.after, id);
      && first.status == Done
      && second.status == Failed(AlreadyStopped)
      && second.issued == []
      && !second.after.containers[id].running
  {
  }

  /**
   * Only one pause succeeds: once a pause has been issued, a further pause
   * is refused with PauseAlreadyRequested, and with AlreadyPaused once the
   * consumer has reached its poll boundary.
   */
  lemma PauseOnlyOnce(c: Container)
    requires PhaseOf(c) == Running
    ensures Verdict(Pause, PhaseOf(Effect(c, Pause))) == Some(PauseAlreadyRequested)
    ensures Verdict(Pause, PhaseOf(PollBoundary(Effect(c, Pause)))) == Some(AlreadyPaused)
  {
  }

  /**
   * Resume right after pause is refused with NotPaused while the pause is
   * only requested; it succeeds once the consumer has paused, and the
   * container is then running again with its assignment untouched: a
   * further resume is refused with NotPaused and a pause is allowed again.
   */
  lemma PauseResumeRoundTrip(c: Container)
    requires PhaseOf(c) == Running
    ensures Verdict(Resume, PhaseOf(Effect(c, Pause))) == Some(NotPaused)
    ensures var paused := PollBoundary(Effect(c, Pause));
      && Verdict(Resume, PhaseOf(paused)) == None
      && PhaseOf(Effect(paused, Resume)) == Running
      && Effect(paused, Resume).assignments == c.assignments
      && Verdict(Resume, PhaseOf(Effect(paused, Resume))) == Some(NotPaused)
      && Verdict(Pause, PhaseOf(Effect(paused, Resume))) == None
    ensures Effect(c, Stop).assignments.None?
  {
  }

  /** A catalog holding one container. */
  function Solo(c: Container): Catalog
  {
    Catalog(map[c.listenerId := c], [c.listenerId])
  }

  /** A command the table allows, on a catalog holding only that container. */
  lemma ControlSolo(cmd: Cmd, c: Container)
    requires Verdict(cmd, PhaseOf(c)).None?
    ensures Control(cmd, Solo(c), c.listenerId) == Outcome(Done, [Sent(c.listenerId, cmd)], Solo(Effect(c, cmd)))
  {
    assert map[c.listenerId := c][c.listenerId := Effect(c, cmd)] == map[c.listenerId := Effect(c, cmd)];
  }

  lemma PollSolo(c: Container)
    ensures Poll(Solo(c), c.listenerId) == Solo(PollBoundary(c))
  {
    assert map[c.listenerId := c][c.listenerId := PollBoundary(c)] == map[c.listenerId := PollBoundary(c)];
  }

  /**
   * The whole walk for a listener created without starting: activate,
   * pause, resume (after the consumer has paused), stop and delete each
   * succeed in turn, and afterwards the catalog is empty again.
   */
  lemma CreateToDelete(id: string, topic: string, groupId: string)
    ensures
      var created := Insert(Catalog(map[], []), NewContainer(id, topic, groupId, false));
      var activated := Control(Start, created, id);
      var paused := Control(Pause, activated.after, id);
      var resumed := Control(Resume, Poll(paused.after, id), id);
      var stopped := Control(Stop, resumed.after, id);
      var deleted := Deletion(stopped.after, id);
      && activated.status == Done && paused.status == Done && resumed.status == Done
      && stopped.status == Done && deleted.status == Done
      && deleted.after == Catalog(map[], [])
  {
    var c0 := NewContainer(id, topic, groupId, false);
    assert Insert(Catalog(map[], []), c0) == Solo(c0);
    ControlSolo(Start, c0);
    var c1 := Effect(c0, Start);
    ControlSolo(Pause, c1);
    var c2 := Effect(c1, Pause);
    PollSolo(c2);
    var c3 := PollBoundary(c2);
    ControlSolo(Resume, c3);
    var c4 := Effect(c3, Resume);
    ControlSolo(Stop, c4);
    var c5 := Effect(c4, Stop);
    assert Without([id], id) == [];
    assert Deletion(Solo(c5), id).after == Catalog(map[], []);
  }

  /**
   * Stop-all over a running container A and a stopped container B. Listed
   * as [A, B], A is stopped and B's AlreadyStopped ends the operation.
   * Listed as [B, A], B's AlreadyStopped ends it at once and A is never
   * stopped: the first failure is not tolerated.
   */
  lemma StopAllAbortsAtFirstStopped(a: Container, b: Container)
    requires a.running && !b.running && a.listenerId != b.listenerId
    ensures var cat := Catalog(map[a.listenerId := a, b.listenerId := b], [a.listenerId, b.listenerId]);
      var r := ForEach(StopEach, cat, [a, b]);
      r.status == Failed(AlreadyStopped) && r.issued == [Sent(a.listenerId, Stop)]
    ensures var cat := Catalog(map[a.listenerId := a, b.listenerId := b], [b.listenerId, a.listenerId]);
      var r := ForEach(StopEach, cat, [b, a]);
      r.status == Failed(AlreadyStopped) && r.issued == [] && r.after.containers[a.listenerId].running
  {
    var cat := Catalog(map[a.listenerId := a, b.listenerId := b], [a.listenerId, b.listenerId]);
    assert [a, b][1..] == [b];
  }
}
