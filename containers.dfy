/**
 * What the controller sees of one listener container: its identity, the
 * flags it observes (isRunning, isContainerPaused, isPauseRequested) and the
 * partitions the broker assigned to it, together with the commands the
 * controller can send it.
 *
 * The library's reaction to a command is not part of the controller; the
 * functions Effect and PollBoundary below are ASSUMPTIONS about it, kept
 * deliberately small: a command only flips the flag the library sets
 * synchronously, and the paused state catches up with the request only when
 * the consumer reaches its next poll.
 */
module Containers {
  import opened Wrappers

  /** A (topic, partition) pair as the broker client reports it. */
  datatype TopicPartition = TopicPartition(topic: string, partition: int)

  /** The observed state of one listener container. */
  datatype Container = Container(
    listenerId: string,
    topic: string,
    groupId: string,
    running: bool,
    paused: bool,           // isContainerPaused: the consumer has actually paused
    pauseRequested: bool,   // isPauseRequested: a pause was asked for
    assignments: Option<seq<TopicPartition>>)

  /** The lifecycle commands a container accepts. */
  datatype Cmd = Start | Pause | Resume | Stop

  /**
   * The container the manager registers for a new listener: not running, not
   * paused, no assignment yet; started at once when the caller asks for it.
   * (Assumption about the manager's registerListener, whose code is not part
   * of this model.)
   */
  function NewContainer(id: string, topic: string, groupId: string, startImmediately: bool): (c: Container)
    ensures c.listenerId == id && c.topic == topic && c.groupId == groupId
    ensures c.running == startImmediately && !c.paused && !c.pauseRequested
    ensures c.assignments.None?
  {
    var idle := Container(id, topic, groupId, false, false, false, None);
    if startImmediately then Effect(idle, Start) else idle
  }

  /**
   * ASSUMPTION: the state a command leaves behind. Start sets running; Stop
   * clears running, both pause flags and the assignment; Pause only records
   * the request, which the consumer honours at its next poll; Resume clears
   * both the request and the paused state at once. Partition assignment after Start
   * is the broker's business and is left as it was.
   */
  function Effect(c: Container, cmd: Cmd): (r: Container)
    ensures r.listenerId == c.listenerId && r.topic == c.topic && r.groupId == c.groupId
    ensures cmd != Stop ==> r.assignments == c.assignments
    ensures cmd == Stop ==> r.assignments.None?
  {
    match cmd
    case Start => c.(running := true)
    case Pause => c.(pauseRequested := true)
    case Resume => c.(paused := false, pauseRequested := false)
    case Stop => c.(running := false, paused := false, pauseRequested := false, assignments := None)
  }

  /**
   * ASSUMPTION: what the consumer thread does at its next poll: a running
   * consumer's paused state becomes whatever was last requested.
   */
  function PollBoundary(c: Container): (r: Container)
    ensures r.listenerId == c.listenerId && r.running == c.running
    ensures r.pauseRequested == c.pauseRequested && r.assignments == c.assignments
    ensures r.running ==> r.paused == r.pauseRequested
  {
    if c.running then c.(paused := c.pauseRequested) else c
  }
}
