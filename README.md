# Dynamic Kafka consumer controller, modelled in Dafny

This project models the REST controller of spring-kafka-dynamic-consumer.
The controller creates Kafka listener containers at run time, lists them,
shows one of them, and drives each one through its lifecycle: activate,
pause, resume, stop and delete, plus stop-all and delete-all.

The catalog of containers is a value: `Registry.Catalog` pairs a map from
listener id to container with the order in which the manager lists them.
`Registry.ContainerManager` is a class holding that state. Its methods
`RegisterListener`, `UnregisterListener`, `GetContainer` and
`ListContainers` stand in for the listener-container manager the controller
calls. Its method `Command` stands in for the calls the controller makes on a
container itself: `start`, `pause`, `resume` and `stop` (lines 55, 68, 79,
93 and 104). The controller
itself is the class `ConsumerController.KafkaConsumerController`. Its
lifecycle methods (`Activate`, `Pause`, `Resume`, `Stop`, `Delete`, `StopAll`
and `DeleteAll`) follow the Java `if` chains and loops step by step, and each
is proved against a specification function in `Lifecycle`:

- `Lifecycle.Control` is the rule for activate, pause, resume and stop.
  A container's three flags (running, paused, pause requested) place it in
  a phase. The table `Lifecycle.Verdict` then either allows the command or
  names the error that refuses it.
- `Lifecycle.Deletion` is the rule for delete.
- `Lifecycle.ForEach` is the rule for stop-all and delete-all: the
  single-id operation applied to each listed container in turn.

`Create` is proved against `Registry.Insert` of `Containers.NewContainer`.
`List`, `Get` and `ListenerContainer` are functions, specified through the
manager's lookup and listing and through `Projection`.

A ghost log on the controller records every command sent to a container
and every registration and unregistration. So each method's contract states
what it returns and the new catalog, and also exactly which side effects it
issued. When a single-id operation (activate, pause, resume, stop, delete)
fails, its contract says nothing was issued. A failing stop-all has already
stopped the running containers listed before the one that failed.

`Projection` models the two response builders. `Scenarios` proves
multi-step properties: stop twice, pause once, the pause/resume round trip
across a poll, create-to-delete, and how stop-all aborts at the first
stopped container.

Files:

- `wrappers.dfy` holds `Option` and `Result`.
- `containers.dfy` holds the container value and the library's effects.
- `registry.dfy` holds the catalog and the manager class.
- `lifecycle.dfy` holds the specification functions and their lemmas.
- `projection.dfy` holds the responses.
- `controller.dfy` holds the controller class.
- `scenarios.dfy` holds the multi-step lemmas.

Stop-all and delete-all call `stop`/`delete` inside a `forEach`, so the
first exception propagates and the containers listed after it are not
visited: neither is sent a command nor has its state changed.
`Scenarios.StopAllAbortsAtFirstStopped` shows the consequence: with a
stopped container listed first, a running container listed after it is
left running. Delete never fails on a listed container, so delete-all
always completes.

## Model

| member | source | states |
|---|---|---|
| Containers.NewContainer | src/main/java/dev/atken/springkafkadynamicconsumer/controller/KafkaConsumerController.java:27-31 | A new container has its own id, topic and group, runs exactly when asked to start immediately, is not paused, has no pause requested and has no assignment. |
| Containers.Effect | src/main/java/dev/atken/springkafkadynamicconsumer/controller/KafkaConsumerController.java:55-93 | A command never changes a container's identity (id, topic, group id). Only stop clears the assignment. |
| Containers.PollBoundary | src/main/java/dev/atken/springkafkadynamicconsumer/controller/KafkaConsumerController.java:63-76 | On a running container, the paused flag catches up with the pause request at the next poll. The running flag, the pause request, the assignment and the id are unchanged. |
| Registry.Without | src/main/java/dev/atken/springkafkadynamicconsumer/controller/KafkaConsumerController.java:105 | Removing an id from the listing keeps exactly the other ids. It keeps a duplicate-free listing duplicate-free, and leaves the listing as it was when the id is not in it. |
| Registry.Insert | src/main/java/dev/atken/springkafkadynamicconsumer/controller/KafkaConsumerController.java:27-31 | Registering a fresh container adds it under its id, appends the id to the listing, and keeps the catalog well formed. |
| Registry.Remove | src/main/java/dev/atken/springkafkadynamicconsumer/controller/KafkaConsumerController.java:105 | Unregistering drops exactly that id from the map and the listing, leaves every other entry as it was, and keeps the catalog well formed. |
| Registry.Listed | src/main/java/dev/atken/springkafkadynamicconsumer/controller/KafkaConsumerController.java:36 | The manager lists one container per listed id, in listing order. |
| Registry.ContainerManager.GetContainer | src/main/java/dev/atken/springkafkadynamicconsumer/controller/KafkaConsumerController.java:109 | The lookup finds a container exactly when the id is registered, and then it is that id's container. |
| Registry.ContainerManager.ListContainers | src/main/java/dev/atken/springkafkadynamicconsumer/controller/KafkaConsumerController.java:36 | The manager's list has one container per listed id, in listing order: position i holds the container registered under the i-th listed id, and that container answers to that id. |
| Registry.ContainerManager.RegisterListener | src/main/java/dev/atken/springkafkadynamicconsumer/controller/KafkaConsumerController.java:27-31 | Registering replaces the manager's catalog by the old one with the new container inserted, and keeps it well formed. |
| Registry.ContainerManager.UnregisterListener | src/main/java/dev/atken/springkafkadynamicconsumer/controller/KafkaConsumerController.java:105 | Unregistering replaces the manager's catalog by the old one with that id removed, and keeps it well formed. |
| Registry.ContainerManager.Command | src/main/java/dev/atken/springkafkadynamicconsumer/controller/KafkaConsumerController.java:55-104 | A command sent to a registered container replaces that container by the command's effect on it. The listing and every other entry are kept. |
| Lifecycle.VerdictOnFlags | src/main/java/dev/atken/springkafkadynamicconsumer/controller/KafkaConsumerController.java:51-91 | The phase table read back on the three flags. Activate is refused exactly when the container is running. Pause is allowed exactly when running, not paused and not pause-requested, and its errors take precedence in that order. Resume is allowed exactly when running and paused. Stop is refused exactly when not running. |
| Lifecycle.Control | src/main/java/dev/atken/springkafkadynamicconsumer/controller/KafkaConsumerController.java:49-93 | An unknown id fails with NotFound and changes nothing. A command the table refuses fails with the table's error, issues nothing and changes nothing. An allowed command sends exactly that one command to that container and changes no other entry. The catalog stays well formed. |
| Lifecycle.Deletion | src/main/java/dev/atken/springkafkadynamicconsumer/controller/KafkaConsumerController.java:101-106 | An unknown id fails with NotFound and changes nothing. Otherwise a stop is sent whatever the container's state, then the id is unregistered. Only that id leaves the catalog and the listing. |
| Lifecycle.Creation | src/main/java/dev/atken/springkafkadynamicconsumer/controller/KafkaConsumerController.java:27-31 | Create logs the registration, then a start exactly when one is asked for. |
| Lifecycle.ForEach | src/main/java/dev/atken/springkafkadynamicconsumer/controller/KafkaConsumerController.java:84 | A sweep over the listing keeps the catalog well formed. Stop-all never changes the listing or the set of registered ids. |
| Lifecycle.StopEachStopsRunningPrefix | src/main/java/dev/atken/springkafkadynamicconsumer/controller/KafkaConsumerController.java:84 | Stop-all issues one stop, in listing order, for each container of a prefix of the listing, and every container in that prefix was running. It fails only with AlreadyStopped, and then on the first container past the prefix, which was not running. |
| Lifecycle.StopEachIssuesStops | src/main/java/dev/atken/springkafkadynamicconsumer/controller/KafkaConsumerController.java:84 | The events stop-all issues are one stop per container of a prefix of the listing, in order, and every container of that prefix was running. |
| Lifecycle.StopEachEndsAtStopped | src/main/java/dev/atken/springkafkadynamicconsumer/controller/KafkaConsumerController.java:84-91 | Stop-all either visits the whole listing, or fails with AlreadyStopped at the first container it did not stop, which was not running. |
| Lifecycle.StopEachLeavesRest | src/main/java/dev/atken/springkafkadynamicconsumer/controller/KafkaConsumerController.java:84-93 | After stop-all, each container of the stopped prefix is that container with the stop applied. Every container listed after the abort point, and every unlisted container, is exactly as it was. |
| Lifecycle.StopAllIffAllRunning | src/main/java/dev/atken/springkafkadynamicconsumer/controller/KafkaConsumerController.java:82-85 | Stop-all completes exactly when every listed container was running, and then it has sent each of them one stop, in order. Otherwise it fails with AlreadyStopped. |
| Lifecycle.StopAllOverListing | src/main/java/dev/atken/springkafkadynamicconsumer/controller/KafkaConsumerController.java:82-85 | The same, for the listing a well-formed catalog gives. In addition, the listing and the registered ids are kept, each container of the stopped prefix becomes its stopped state, and each container after the abort point keeps its old state. |
| Lifecycle.DeleteEachRemovesListed | src/main/java/dev/atken/springkafkadynamicconsumer/controller/KafkaConsumerController.java:98 | Delete-all over a listing never fails. It sends each container a stop and an unregistration, in order. Exactly the listed ids leave the catalog, and every other entry is unchanged. |
| Lifecycle.DeleteAllEmpties | src/main/java/dev/atken/springkafkadynamicconsumer/controller/KafkaConsumerController.java:96-99 | Delete-all over the whole listing completes and leaves the catalog empty. |
| Lifecycle.IdsOf | src/main/java/dev/atken/springkafkadynamicconsumer/controller/KafkaConsumerController.java:84 | The ids of a list of containers, one per container, in order. |
| Projection.ToAssignments | src/main/java/dev/atken/springkafkadynamicconsumer/controller/KafkaConsumerController.java:122-135 | Each assigned partition becomes one assignment with the same topic and partition number, in the same order. |
| Projection.ToResponse | src/main/java/dev/atken/springkafkadynamicconsumer/controller/KafkaConsumerController.java:117-128 | The response copies the group id and listener id. It is active exactly when the container is running. It has assignments exactly when the container has some, and then one per partition, pointwise. |
| Projection.Responses | src/main/java/dev/atken/springkafkadynamicconsumer/controller/KafkaConsumerController.java:36-39 | One response per container, in order, each that container's projection. |
| ConsumerController.KafkaConsumerController.Create | src/main/java/dev/atken/springkafkadynamicconsumer/controller/KafkaConsumerController.java:25-32 | Create registers a new container for the request's topic under the fresh id and the manager's group. The container runs exactly when asked to start immediately, and create logs those events. |
| ConsumerController.KafkaConsumerController.List | src/main/java/dev/atken/springkafkadynamicconsumer/controller/KafkaConsumerController.java:34-40 | List gives one response per registered container, in listing order. Each response is the one that get returns for that id. |
| ConsumerController.KafkaConsumerController.Get | src/main/java/dev/atken/springkafkadynamicconsumer/controller/KafkaConsumerController.java:42-45 | Get succeeds exactly when the id is registered, returning that container's response. Otherwise it fails with NotFound. |
| ConsumerController.KafkaConsumerController.ListenerContainer | src/main/java/dev/atken/springkafkadynamicconsumer/controller/KafkaConsumerController.java:108-115 | The lookup succeeds exactly when the id is registered, returning that container. Otherwise it fails with NotFound. |
| ConsumerController.KafkaConsumerController.Activate | src/main/java/dev/atken/springkafkadynamicconsumer/controller/KafkaConsumerController.java:47-56 | Activate returns, logs and leaves behind exactly what `Control(Start, …)` gives on the old catalog. |
| ConsumerController.KafkaConsumerController.Pause | src/main/java/dev/atken/springkafkadynamicconsumer/controller/KafkaConsumerController.java:58-69 | Pause returns, logs and leaves behind exactly what `Control(Pause, …)` gives on the old catalog. |
| ConsumerController.KafkaConsumerController.Resume | src/main/java/dev/atken/springkafkadynamicconsumer/controller/KafkaConsumerController.java:71-80 | Resume returns, logs and leaves behind exactly what `Control(Resume, …)` gives on the old catalog. |
| ConsumerController.KafkaConsumerController.Stop | src/main/java/dev/atken/springkafkadynamicconsumer/controller/KafkaConsumerController.java:87-94 | Stop returns, logs and leaves behind exactly what `Control(Stop, …)` gives on the old catalog. |
| ConsumerController.KafkaConsumerController.Delete | src/main/java/dev/atken/springkafkadynamicconsumer/controller/KafkaConsumerController.java:101-106 | Delete returns, logs and leaves behind exactly what `Deletion` gives on the old catalog. |
| ConsumerController.KafkaConsumerController.StopAll | src/main/java/dev/atken/springkafkadynamicconsumer/controller/KafkaConsumerController.java:82-85 | StopAll's loop returns, logs and leaves behind what the stop sweep over the old listing gives. It completes exactly when every listed container was running, sending each one stop in order. Otherwise it fails with AlreadyStopped. The manager's listing and registered ids are unchanged. With n containers stopped (n is the number of events logged), each of the first n listed containers is now in its stopped state, and every listed container after them keeps its old state. |
| ConsumerController.KafkaConsumerController.DeleteAll | src/main/java/dev/atken/springkafkadynamicconsumer/controller/KafkaConsumerController.java:96-99 | DeleteAll's loop returns, logs and leaves behind what the delete sweep over the old listing gives. It always completes, leaves the catalog empty, and sends a stop and an unregistration for each listed container, in order. |
| Scenarios.RegisterAllListsEach | src/main/java/dev/atken/springkafkadynamicconsumer/controller/KafkaConsumerController.java:25-40 | Registering fresh containers one after another appends their ids to the listing in order and stores each one under its id. |
| Scenarios.ListAfterRegistrations | src/main/java/dev/atken/springkafkadynamicconsumer/controller/KafkaConsumerController.java:34-40 | After registering fresh containers into an empty catalog, the listing is exactly those containers in order, and list gives one response for each. |
| Scenarios.CreateStartedShowsActive | src/main/java/dev/atken/springkafkadynamicconsumer/controller/KafkaConsumerController.java:25-45 | A consumer created to start immediately is listed once, under its id, and shown as active with no assignments. |
| Scenarios.PauseNeverStarted | src/main/java/dev/atken/springkafkadynamicconsumer/controller/KafkaConsumerController.java:58-62 | Pausing a consumer that was created but never started fails with NotRunning and issues nothing. |
| Scenarios.StopTwice | src/main/java/dev/atken/springkafkadynamicconsumer/controller/KafkaConsumerController.java:87-94 | Stopping a running consumer succeeds. Stopping it again fails with AlreadyStopped, and it stays stopped. |
| Scenarios.PauseOnlyOnce | src/main/java/dev/atken/springkafkadynamicconsumer/controller/KafkaConsumerController.java:58-69 | A second pause fails with PauseAlreadyRequested before the next poll, and with AlreadyPaused after it. |
| Scenarios.PauseResumeRoundTrip | src/main/java/dev/atken/springkafkadynamicconsumer/controller/KafkaConsumerController.java:58-80 | Resume right after pause fails with NotPaused. After the next poll the container is paused and resume is allowed. Resume puts it straight back to running, neither paused nor pause-requested, with its assignment unchanged. A second resume then fails with NotPaused, and a pause is allowed again. Stopping clears the assignment. |
| Scenarios.CreateToDelete | src/main/java/dev/atken/springkafkadynamicconsumer/controller/KafkaConsumerController.java:25-106 | Create a stopped consumer, then activate, pause, let it poll, resume, stop and delete: each step succeeds. The catalog ends empty. |
| Scenarios.StopAllAbortsAtFirstStopped | src/main/java/dev/atken/springkafkadynamicconsumer/controller/KafkaConsumerController.java:82-94 | With a running and a stopped consumer, stop-all fails with AlreadyStopped in either order. Running first, that one is stopped. Stopped first, nothing is issued and the running one keeps running. |

## Left out

- HTTP routing, request binding, Spring annotations and the `RuntimeException` messages are left out. A thrown exception becomes a `Failed(error)` status, and the message text is not modelled.
- `Create`: the random UUID is a parameter. The model requires it not to be registered yet, which stands in for the uniqueness of random UUIDs.
- The listener-container manager is not part of this model. `Registry.ContainerManager` models register, unregister, look up and list. The model also assumes that `listContainers` returns containers in registration order. The source does not fix that order, since `list`, `stopAll` and `deleteAll` only iterate whatever is returned. The "in order" claims of `Scenarios.RegisterAllListsEach` and `Scenarios.ListAfterRegistrations` rest on this assumption.
- The behaviour of Spring Kafka's `MessageListenerContainer` is `Containers.Effect` and `Containers.PollBoundary`, written as assumptions. Start sets running. Pause only requests a pause, and the paused flag catches up at the next poll of a running container. Resume clears both the request and the paused flag at once, so a resumed container is running again without waiting for a poll. Stop clears running, both pause flags and the assignment.
- Containers are values in the manager's map, not shared objects, so aliasing of one container object by several callers is not captured.
- Concurrency is not modelled: the consumer threads, and concurrent HTTP requests racing between a flag check and the command. Every operation here is atomic.
- Logging is not modelled.
- The partition assignment made by the Kafka group coordinator is not modelled. No operation in the model adds an assignment; it can only be present in a given container.
- The controller checks neither for duplicate listener ids nor for an empty or invalid topic, so the model has no such errors.
- `ListContainers` is read once, before stop-all or delete-all visits any container. The model assumes the manager returns a snapshot, a list that the `unregisterListener` calls made inside the `forEach` (line 98) do not change while it is being traversed. The manager's code is not part of this model.
- 32-bit partition numbers are modelled as unbounded integers, because the controller only copies them.
