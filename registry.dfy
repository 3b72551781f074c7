/**
 * The listener container manager's catalog: the containers keyed by
 * listener id, and the order in which listContainers returns them. The
 * manager's own code is not part of this model; its four operations the
 * controller calls (registerListener, unregisterListener, getContainer,
 * listContainers) are modelled as insertion, removal, lookup and listing.
 */
module Registry {
  import opened Wrappers
  import opened Containers

  /** The catalog as a value: containers by id, and the listing order. */
  datatype Catalog = Catalog(containers: map<string, Container>, listing: seq<string>)

  ghost predicate Distinct(s: seq<string>)
  {
    forall i, j :: 0 <= i < j < |s| ==> s[i] != s[j]
  }

  /**
   * Every registered id is listed exactly once, nothing else is listed, and
   * each container answers to the id it is registered under.
   */
  ghost predicate WellFormed(cat: Catalog)
  {
    && Distinct(cat.listing)
    && (forall id :: id in cat.containers <==> id in cat.listing)
    && (forall id :: id in cat.containers ==> cat.containers[id].listenerId == id)
  }

  /** listContainers: the registered containers in listing order. */
  function Listed(cat: Catalog): (cs: seq<Container>)
    requires WellFormed(cat)
    ensures |cs| == |cat.listing|
    ensures forall i :: 0 <= i < |cs| ==> cs[i] == cat.containers[cat.listing[i]]
    ensures forall i :: 0 <= i < |cs| ==> cs[i].listenerId == cat.listing[i]
  {
    seq(|cat.listing|, i requires 0 <= i < |cat.listing| => cat.containers[cat.listing[i]])
  }

  /** The listing with one id taken out, order otherwise kept. */
  function Without(s: seq<string>, id: string): (r: seq<string>)
    ensures forall x :: x in r <==> x in s && x != id
    ensures Distinct(s) ==> Distinct(r)
    ensures id !in s ==> r == s
  {
    if s == [] then []
    else if s[0] == id then Without(s[1..], id)
    else
      var rest := Without(s[1..], id);
      assert Distinct(s) ==> s[0] !in rest;
      [s[0]] + rest
  }

  /** registerListener: the new container is added and listed last. */
  function Insert(cat: Catalog, c: Container): (r: Catalog)
    requires c.listenerId !in cat.containers
    ensures r.listing == cat.listing + [c.listenerId]
    ensures r.containers.Keys == cat.containers.Keys + {c.listenerId}
    ensures r.containers[c.listenerId] == c
    ensures forall x :: x in cat.containers ==> r.containers[x] == cat.containers[x]
    ensures WellFormed(cat) ==> WellFormed(r)
  {
    Catalog(cat.containers[c.listenerId := c], cat.listing + [c.listenerId])
  }

  /** unregisterListener: the id leaves the catalog and the listing. */
  function Remove(cat: Catalog, id: string): (r: Catalog)
    ensures r.containers.Keys == cat.containers.Keys - {id}
    ensures forall x :: x in r.containers ==> r.containers[x] == cat.containers[x]
    ensures r.listing == Without(cat.listing, id)
    ensures WellFormed(cat) ==> WellFormed(r)
  {
    Catalog(cat.containers - {id}, Without(cat.listing, id))
  }

  /**
   * The manager the controller talks to. The group id comes from the
   * application's configuration, not from the request.
   */
  class ContainerManager {
    const groupId: string
    var containers: map<string, Container>
    var listing: seq<string>

    function Value(): Catalog
      reads this
    {
      Catalog(containers, listing)
    }

    ghost predicate Valid()
      reads this
    {
      WellFormed(Value())
    }

    constructor (groupId: string)
      ensures Valid() && this.groupId == groupId
      ensures Value() == Catalog(map[], [])
    {
      this.groupId := groupId;
      containers := map[];
      listing := [];
    }

    /** registerListener(id, topic, startImmediately). */
    method RegisterListener(id: string, topic: string, startImmediately: bool)
      requires Valid() && id !in containers
      modifies this
      ensures Valid()
      ensures Value() == Insert(old(Value()), NewContainer(id, topic, groupId, startImmediately))
    {
      var c := NewContainer(id, topic, groupId, startImmediately);
      containers := containers[id := c];
      listing := listing + [id];
    }

    /** unregisterListener(id). */
    method UnregisterListener(id: string)
      requires Valid()
      modifies this
      ensures Valid()
      ensures Value() == Remove(old(Value()), id)
    {
      containers := containers - {id};
      listing := Without(listing, id);
    }

    /** A lifecycle command sent to the container registered under id. */
    method Command(id: string, cmd: Cmd)
      requires Valid() && id in containers
      modifies this
      ensures Valid()
      ensures Value() == Catalog(old(containers)[id := Effect(old(containers)[id], cmd)], old(listing))
    {
      containers := containers[id := Effect(containers[id], cmd)];
    }

    /** getContainer(id). */
    function GetContainer(id: string): (r: Option<Container>)
      reads this
      ensures r.Some? <==> id in containers
      ensures r.Some? ==> r.value == containers[id]
    {
      if id in containers then Some(containers[id]) else None
    }

    /** listContainers(). */
    function ListContainers(): (r: seq<Container>)
      reads this
      requires Valid()
      ensures |r| == |listing|
      ensures forall i :: 0 <= i < |r| ==> r[i] == containers[listing[i]]
      ensures forall i :: 0 <= i < |r| ==> r[i].listenerId == listing[i]
    {
      Listed(Value())
    }
  }
}
