/**
 * The response records the controller returns for a container, and the
 * projections that build them (createKafkaConsumerResponse and
 * createKafkaConsumerAssignmentResponse).
 */
module Projection {
  import opened Wrappers
  import opened Containers

  /** One entry of a response's assignment list. */
  datatype Assignment = Assignment(topic: string, partition: int)

  /** What get and list return for one container. */
  datatype Response = Response(
    groupId: string,
    listenerId: string,
    active: bool,
    assignments: Option<seq<Assignment>>)

  function ToAssignment(tp: TopicPartition): Assignment
  {
    Assignment(tp.topic, tp.partition)
  }

  /** The assigned partitions turned into response entries, one for one and in order. */
  function ToAssignments(tps: seq<TopicPartition>): (r: seq<Assignment>)
    ensures |r| == |tps|
    ensures forall i :: 0 <= i < |tps| ==> r[i].topic == tps[i].topic && r[i].partition == tps[i].partition
  {
    if tps == [] then [] else [ToAssignment(tps[0])] + ToAssignments(tps[1..])
  }

  /**
   * The response for a container: group id and listener id copied, active
   * exactly when the container runs, and an assignment list present exactly
   * when the container reports one, with the same pairs in the same order.
   */
  function ToResponse(c: Container): (r: Response)
    ensures r.groupId == c.groupId && r.listenerId == c.listenerId
    ensures r.active == c.running
    ensures r.assignments.None? <==> c.assignments.None?
    ensures c.assignments.Some? ==>
      && |r.assignments.value| == |c.assignments.value|
      && forall i :: 0 <= i < |c.assignments.value| ==>
           r.assignments.value[i] == Assignment(c.assignments.value[i].topic, c.assignments.value[i].partition)
  {
    Response(
      c.groupId,
      c.listenerId,
      c.running,
      match c.assignments
      case None => None
      case Some(tps) => Some(ToAssignments(tps)))
  }

  /** The projection applied to each container of a listing, keeping length and order. */
  function Responses(cs: seq<Container>): (r: seq<Response>)
    ensures |r| == |cs|
    ensures forall i :: 0 <= i < |cs| ==> r[i] == ToResponse(cs[i])
  {
    if cs == [] then [] else [ToResponse(cs[0])] + Responses(cs[1..])
  }
}
