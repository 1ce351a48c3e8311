/**
 * `PortMappingListener`: keeps port mappings installed on every Internet Gateway
 * Device that appears, and removes them when the device goes away or the stack
 * shuts down.
 *
 * The registry's events become three functions over the listener's state. Each
 * remote add or delete is answered by the next entry of an outcome sequence, in
 * call order, and each event returns the trace of remote calls and failure
 * messages (`handleFailureMessage`) it produced.
 */
module PortMappingListener {
  import opened Wrappers
  import Net = NetworkAddressFactory

  // ---------------------------------------------------------------------------
  // Data model
  // ---------------------------------------------------------------------------

  datatype Protocol = UDP | TCP

  /** `PortMapping`; `internalClient` is null in a template that leaves it to be discovered. */
  datatype PortMapping = PortMapping(
    enabled: bool,
    leaseDurationSeconds: nat,
    remoteHost: Option<string>,
    externalPort: nat,
    internalPort: nat,
    internalClient: Option<string>,
    protocol: Protocol,
    description: Option<string>)

  /** `DeviceType` and `ServiceType`: equal when namespace, type and version are. */
  datatype UpnpType = UpnpType(namespace: string, typeName: string, version: int)

  const IgdDeviceType := UpnpType("schemas-upnp-org", "InternetGatewayDevice", 1)
  const ConnectionDeviceType := UpnpType("schemas-upnp-org", "WANConnectionDevice", 1)
  const IpServiceType := UpnpType("schemas-upnp-org", "WANIPConnection", 1)
  const PppServiceType := UpnpType("schemas-upnp-org", "WANPPPConnection", 1)

  /**
   * The identity of one `Service` object. The active-mapping map compares keys
   * by object identity, so two services with equal fields but different handles
   * are different keys.
   */
  datatype ServiceId = ServiceId(handle: nat)

  datatype Service = Service(id: ServiceId, serviceType: UpnpType)

  /** `RemoteDeviceIdentity` carries the local address the device was discovered on. */
  datatype DeviceIdentity = RemoteIdentity(discoveredOnLocalAddress: Net.InetAddress) | LocalIdentity

  /** An embedded WAN connection device: its services in the order `findService` searches them. */
  datatype ConnectionDevice = ConnectionDevice(services: seq<Service>)

  /**
   * A `Device`, with the answers of `findDevices(WANConnectionDevice:1)` and of
   * `findServices()` (its own and its descendants' services) given as lists.
   */
  datatype Device = Device(
    deviceType: UpnpType,
    identity: DeviceIdentity,
    connectionDevices: seq<ConnectionDevice>,
    allServices: seq<Service>)

  /** What a remote add or delete reports: `success`, or `failure` with its default message. */
  datatype RemoteOutcome = Succeeded | Failed(reason: string)

  /** The failure messages the listener emits. */
  datatype Message =
    | NonRemoteIgd
    | AddFailed(mapping: PortMapping)
    | DeleteFailed(mapping: PortMapping)
    | Reason(text: string)
    | DeviceDisappeared(count: nat)

  /** One observable step of an event: a remote call, or a failure message. */
  datatype Event =
    | AddCalled(service: ServiceId, mapping: PortMapping)
    | DeleteCalled(service: ServiceId, mapping: PortMapping)
    | FailureMessage(message: Message)

  /** The listener: its templates and the mappings believed active per connection service. */
  datatype Listener = Listener(portMappings: seq<PortMapping>, active: map<ServiceId, seq<PortMapping>>)

  /** The state after an event, the trace it produced, and the outcomes it did not consume. */
  datatype Step = Step(listener: Listener, trace: seq<Event>, remaining: seq<RemoteOutcome>)

  /** The constructors (lines 85-91): the templates, and no active mapping. */
  function NewListener(portMappings: seq<PortMapping>): (r: Listener)
    ensures r.portMappings == portMappings && r.active == map[]
  {
    Listener(portMappings, map[])
  }

  // ---------------------------------------------------------------------------
  // Traces
  // ---------------------------------------------------------------------------

  /** The remote calls of a trace, in order. */
  function CallsIn(trace: seq<Event>): seq<Event> {
    if |trace| == 0 then []
    else (if trace[0].FailureMessage? then [] else [trace[0]]) + CallsIn(trace[1..])
  }

  /** The failure messages of a trace, in order. */
  function MessagesIn(trace: seq<Event>): seq<Message> {
    if |trace| == 0 then []
    else (if trace[0].FailureMessage? then [trace[0].message] else []) + MessagesIn(trace[1..])
  }

  lemma {:induction false} CallsInAppend(a: seq<Event>, b: seq<Event>)
    ensures CallsIn(a + b) == CallsIn(a) + CallsIn(b)
  {
    if |a| == 0 {
      assert a + b == b;
    } else {
      assert (a + b)[0] == a[0];
      assert (a + b)[1..] == a[1..] + b;
      CallsInAppend(a[1..], b);
    }
  }

  lemma {:induction false} MessagesInAppend(a: seq<Event>, b: seq<Event>)
    ensures MessagesIn(a + b) == MessagesIn(a) + MessagesIn(b)
  {
    if |a| == 0 {
      assert a + b == b;
    } else {
      assert (a + b)[0] == a[0];
      assert (a + b)[1..] == a[1..] + b;
      MessagesInAppend(a[1..], b);
    }
  }

  /** A remote call followed by the two messages of its failure. */
  lemma FailedCallProjections(call: Event, m1: Message, m2: Message)
    requires !call.FailureMessage?
    ensures CallsIn([call]) == [call] && MessagesIn([call]) == []
    ensures CallsIn([call, FailureMessage(m1), FailureMessage(m2)]) == [call]
    ensures MessagesIn([call, FailureMessage(m1), FailureMessage(m2)]) == [m1, m2]
  {
    var t := [call, FailureMessage(m1), FailureMessage(m2)];
    assert t[1..][1..] == [FailureMessage(m2)];
    assert t[1..][1..][1..] == [];
    assert CallsIn(t[1..][1..]) == [] && MessagesIn(t[1..][1..]) == [m2];
    assert CallsIn(t[1..]) == [] && MessagesIn(t[1..]) == [m1, m2];
  }

  /** One add call per mapping, in order, all on `service`. */
  function AddCalls(service: ServiceId, mappings: seq<PortMapping>): seq<Event> {
    if |mappings| == 0 then [] else [AddCalled(service, mappings[0])] + AddCalls(service, mappings[1..])
  }

  /** One delete call per mapping, in order, all on `service`. */
  function DeleteCalls(service: ServiceId, mappings: seq<PortMapping>): seq<Event> {
    if |mappings| == 0 then [] else [DeleteCalled(service, mappings[0])] + DeleteCalls(service, mappings[1..])
  }

  /** How many of the outcomes are failures. */
  function FailureCount(outcomes: seq<RemoteOutcome>): nat {
    if |outcomes| == 0 then 0 else (if outcomes[0].Failed? then 1 else 0) + FailureCount(outcomes[1..])
  }

  /** The mappings whose outcome, position by position, is `Succeeded`. */
  function Succeeding(mappings: seq<PortMapping>, outcomes: seq<RemoteOutcome>): seq<PortMapping>
    requires |outcomes| >= |mappings|
  {
    if |mappings| == 0 then []
    else (if outcomes[0].Succeeded? then [mappings[0]] else []) + Succeeding(mappings[1..], outcomes[1..])
  }

  /** The mappings whose outcome, position by position, is `Failed`. */
  function Failing(mappings: seq<PortMapping>, outcomes: seq<RemoteOutcome>): seq<PortMapping>
    requires |outcomes| >= |mappings|
  {
    if |mappings| == 0 then []
    else (if outcomes[0].Failed? then [mappings[0]] else []) + Failing(mappings[1..], outcomes[1..])
  }

  /** The remote action a refusal is reported for. */
  datatype Action = Adding | Deleting

  /** The first message of a refusal: "Failed to add/delete port mapping: " and the mapping. */
  function Refused(action: Action, pm: PortMapping): Message {
    match action
    case Adding => AddFailed(pm)
    case Deleting => DeleteFailed(pm)
  }

  /**
   * What one call reports (lines 142-145 and 188-191): nothing on success; on a
   * refusal, the mapping the action was for, then the reason the device gave.
   */
  function Refusal(action: Action, pm: PortMapping, outcome: RemoteOutcome): seq<Message> {
    match outcome
    case Succeeded => []
    case Failed(reason) => [Refused(action, pm), Reason(reason)]
  }

  /** A remote call, followed by the two messages of its refusal when it is refused. */
  function CallReport(call: Event, action: Action, pm: PortMapping, outcome: RemoteOutcome): (r: seq<Event>)
    requires !call.FailureMessage?
    ensures CallsIn(r) == [call]
    ensures MessagesIn(r) == Refusal(action, pm, outcome)
    ensures |r| > 0 && r[0] == call
    ensures forall i :: 1 <= i < |r| ==> r[i].FailureMessage?
  {
    match outcome
    case Succeeded =>
      FailedCallProjections(call, NonRemoteIgd, NonRemoteIgd);
      [call]
    case Failed(reason) =>
      FailedCallProjections(call, Refused(action, pm), Reason(reason));
      [call, FailureMessage(Refused(action, pm)), FailureMessage(Reason(reason))]
  }

  /** The messages of one call per mapping, in order, each answered by the next outcome. */
  function FailureMessages(action: Action, mappings: seq<PortMapping>, outcomes: seq<RemoteOutcome>): (r: seq<Message>)
    requires |outcomes| >= |mappings|
    ensures |r| == 2 * FailureCount(outcomes[..|mappings|])
  {
    if |mappings| == 0 then []
    else
      assert outcomes[..|mappings|][1..] == outcomes[1..][..|mappings| - 1];
      Refusal(action, mappings[0], outcomes[0]) + FailureMessages(action, mappings[1..], outcomes[1..])
  }

  /** The messages pair up with the refused mappings: each pair names one, then gives a reason. */
  predicate PairsWith(action: Action, messages: seq<Message>, refused: seq<PortMapping>) {
    && |messages| == 2 * |refused|
    && forall i :: 0 <= i < |refused| ==> messages[2 * i] == Refused(action, refused[i]) && messages[2 * i + 1].Reason?
  }

  /** A refusal in front keeps the pairing. */
  lemma PairsWithCons(action: Action, pm: PortMapping, reason: string, messages: seq<Message>, refused: seq<PortMapping>)
    requires PairsWith(action, messages, refused)
    ensures PairsWith(action, [Refused(action, pm), Reason(reason)] + messages, [pm] + refused)
  {
    var msgs := [Refused(action, pm), Reason(reason)] + messages;
    var all := [pm] + refused;
    forall i | 0 < i < |all|
      ensures msgs[2 * i] == Refused(action, all[i]) && msgs[2 * i + 1].Reason?
    {
      assert msgs[2 * i] == messages[2 * (i - 1)] && msgs[2 * i + 1] == messages[2 * (i - 1) + 1];
    }
  }

  /**
   * The messages name exactly the refused mappings, in order: the `i`-th pair is the
   * `i`-th mapping of `Failing`, followed by its reason.
   */
  lemma {:induction false} FailureMessagesNameFailing(action: Action, mappings: seq<PortMapping>, outcomes: seq<RemoteOutcome>)
    requires |outcomes| >= |mappings|
    ensures PairsWith(action, FailureMessages(action, mappings, outcomes), Failing(mappings, outcomes))
  {
    if |mappings| > 0 {
      FailureMessagesNameFailing(action, mappings[1..], outcomes[1..]);
      var rest := FailureMessages(action, mappings[1..], outcomes[1..]);
      var failingRest := Failing(mappings[1..], outcomes[1..]);
      if outcomes[0].Failed? {
        assert FailureMessages(action, mappings, outcomes) == [Refused(action, mappings[0]), Reason(outcomes[0].reason)] + rest;
        assert Failing(mappings, outcomes) == [mappings[0]] + failingRest;
        PairsWithCons(action, mappings[0], outcomes[0].reason, rest, failingRest);
      } else {
        assert FailureMessages(action, mappings, outcomes) == rest && Failing(mappings, outcomes) == failingRest;
      }
    }
  }


  // ---------------------------------------------------------------------------
  // Connection service discovery
  // ---------------------------------------------------------------------------

  /** `Device.findService(type)`: the first service of that type. */
  function FindService(services: seq<Service>, serviceType: UpnpType): (r: Option<Service>)
    ensures r.Some? ==> r.value in services && r.value.serviceType == serviceType
    ensures r.None? <==> forall i :: 0 <= i < |services| ==> services[i].serviceType != serviceType
  {
    if |services| == 0 then None
    else if services[0].serviceType == serviceType then Some(services[0])
    else FindService(services[1..], serviceType)
  }

  /**
   * `discoverConnectionService` (lines 199-227): only an InternetGatewayDevice:1
   * with a WANConnectionDevice:1 qualifies; in the first such device the
   * WANIPConnection service is preferred over WANPPPConnection.
   */
  function DiscoverConnectionService(device: Device): (r: Option<Service>)
    ensures r.Some? ==> device.deviceType == IgdDeviceType && |device.connectionDevices| > 0
    ensures r.Some? ==> r.value in device.connectionDevices[0].services
    ensures r.Some? ==> r.value.serviceType == IpServiceType || r.value.serviceType == PppServiceType
    ensures r.Some? && r.value.serviceType == PppServiceType ==>
              forall s :: s in device.connectionDevices[0].services ==> s.serviceType != IpServiceType
    ensures device.deviceType == IgdDeviceType && |device.connectionDevices| > 0
            && (exists s :: s in device.connectionDevices[0].services
                  && (s.serviceType == IpServiceType || s.serviceType == PppServiceType))
            ==> r.Some?
  {
    if device.deviceType != IgdDeviceType then None
    else if |device.connectionDevices| == 0 then None
    else
      var connectionDevice := device.connectionDevices[0];
      var ip := FindService(connectionDevice.services, IpServiceType);
      var ppp := FindService(connectionDevice.services, PppServiceType);
      if ip.Some? then ip else ppp
  }

  // ---------------------------------------------------------------------------
  // deviceAdded
  // ---------------------------------------------------------------------------

  /** The mapping built at lines 120-128: every field copied, the internal client replaced. */
  function WithInternalClient(pm: PortMapping, client: string): (r: PortMapping)
    ensures r.internalClient == Some(client)
    ensures r.(internalClient := pm.internalClient) == pm
  {
    PortMapping(pm.enabled, pm.leaseDurationSeconds, pm.remoteHost, pm.externalPort,
                pm.internalPort, Some(client), pm.protocol, pm.description)
  }

  /**
   * What is submitted for one template: the template itself when it names its
   * internal client, else a copy naming the address the device was discovered on,
   * and nothing when the device identity is not remote.
   */
  function Submission(pm: PortMapping, identity: DeviceIdentity): (r: Option<PortMapping>)
    ensures r.None? <==> pm.internalClient.None? && !identity.RemoteIdentity?
    ensures pm.internalClient.Some? ==> r == Some(pm)
    ensures r.Some? ==> r.value.internalClient.Some?
    ensures r.Some? ==> r.value.(internalClient := pm.internalClient) == pm
  {
    if pm.internalClient.Some? then Some(pm)
    else if identity.RemoteIdentity? then
      Some(WithInternalClient(pm, Net.HostAddress(identity.discoveredOnLocalAddress)))
    else None
  }

  /** The mappings submitted for the templates, in template order. */
  function Submitted(templates: seq<PortMapping>, identity: DeviceIdentity): (r: seq<PortMapping>)
    ensures |r| <= |templates|
  {
    if |templates| == 0 then []
    else
      var s := Submission(templates[0], identity);
      (if s.Some? then [s.value] else []) + Submitted(templates[1..], identity)
  }

  /** The templates that cannot be submitted: those without a client when the identity is not remote. */
  function Unresolvable(templates: seq<PortMapping>, identity: DeviceIdentity): nat {
    if |templates| == 0 then 0
    else (if Submission(templates[0], identity).None? then 1 else 0) + Unresolvable(templates[1..], identity)
  }

  /** Taking the first `n` outcomes, then the first off, is taking the rest's first `n - 1`. */
  lemma FirstOutcome(outcomes: seq<RemoteOutcome>, n: nat)
    requires 1 <= n <= |outcomes|
    ensures FailureCount(outcomes[..n]) == (if outcomes[0].Failed? then 1 else 0) + FailureCount(outcomes[1..][..n - 1])
    ensures outcomes[n..] == outcomes[1..][n - 1..]
  {
    assert outcomes[..n][1..] == outcomes[1..][..n - 1];
  }

  /** A device discovered remotely gives every template an internal client. */
  lemma {:induction false} RemoteResolvesAll(templates: seq<PortMapping>, identity: DeviceIdentity)
    ensures identity.RemoteIdentity? ==> Unresolvable(templates, identity) == 0
    ensures identity.RemoteIdentity? ==> |Submitted(templates, identity)| == |templates|
  {
    if identity.RemoteIdentity? && |templates| > 0 {
      RemoteResolvesAll(templates[1..], identity);
    }
  }

  /**
   * The messages of the template loop (lines 105-147), template by template: the
   * non-remote message for a template that cannot be resolved, and the refusal of
   * each submitted mapping's add, answered by the next outcome.
   */
  function AddMessages(templates: seq<PortMapping>, identity: DeviceIdentity, outcomes: seq<RemoteOutcome>): (r: seq<Message>)
    requires |outcomes| >= |templates|
    ensures |r| == 2 * FailureCount(outcomes[..|Submitted(templates, identity)|]) + Unresolvable(templates, identity)
    ensures Unresolvable(templates, identity) == 0 ==> r == FailureMessages(Adding, Submitted(templates, identity), outcomes)
    decreases |templates|
  {
    if |templates| == 0 then []
    else
      var rest := templates[1..];
      match Submission(templates[0], identity)
      case None =>
        assert Submitted(templates, identity) == Submitted(rest, identity);
        [NonRemoteIgd] + AddMessages(rest, identity, outcomes)
      case Some(pm) =>
        var submitted := Submitted(templates, identity);
        assert submitted == [pm] + Submitted(rest, identity);
        assert submitted[0] == pm && submitted[1..] == Submitted(rest, identity);
        FirstOutcome(outcomes, |submitted|);
        Refusal(Adding, pm, outcomes[0]) + AddMessages(rest, identity, outcomes[1..])
  }

  /** The result of the template loop: mappings added, trace, unused outcomes. */
  datatype AddRun = AddRun(added: seq<PortMapping>, trace: seq<Event>, remaining: seq<RemoteOutcome>)

  /**
   * The loop of lines 105-147 from one template on. `defaultClient` is the
   * cached default internal client: once computed from a remote identity it is
   * reused; while absent, every template without a client checks the identity
   * again and, if it is not remote, is skipped with one failure message.
   */
  function AddMappings(
    service: ServiceId, identity: DeviceIdentity, templates: seq<PortMapping>,
    defaultClient: Option<string>, outcomes: seq<RemoteOutcome>): (r: AddRun)
    requires |outcomes| >= |templates|
    requires defaultClient.Some? ==>
               identity.RemoteIdentity? && defaultClient.value == Net.HostAddress(identity.discoveredOnLocalAddress)
    ensures r.added == Succeeding(Submitted(templates, identity), outcomes)
    ensures CallsIn(r.trace) == AddCalls(service, Submitted(templates, identity))
    ensures |MessagesIn(r.trace)|
            == 2 * FailureCount(outcomes[..|Submitted(templates, identity)|]) + Unresolvable(templates, identity)
    ensures MessagesIn(r.trace) == AddMessages(templates, identity, outcomes)
    ensures identity.RemoteIdentity? ==>
              MessagesIn(r.trace) == FailureMessages(Adding, Submitted(templates, identity), outcomes)
    ensures r.remaining == outcomes[|Submitted(templates, identity)|..]
    decreases |templates|
  {
    RemoteResolvesAll(templates, identity);
    if |templates| == 0 then AddRun([], [], outcomes)
    else
      var pm := templates[0];
      if pm.internalClient.None? && defaultClient.None? && !identity.RemoteIdentity? then
        var rest := AddMappings(service, identity, templates[1..], defaultClient, outcomes);
        var trace := [FailureMessage(NonRemoteIgd)] + rest.trace;
        assert Submission(pm, identity).None?;
        assert Submitted(templates, identity) == Submitted(templates[1..], identity);
        CallsInAppend([FailureMessage(NonRemoteIgd)], rest.trace);
        MessagesInAppend([FailureMessage(NonRemoteIgd)], rest.trace);
        AddRun(rest.added, trace, rest.remaining)
      else
        var client :=
          if pm.internalClient.Some? || defaultClient.Some? then defaultClient
          else Some(Net.HostAddress(identity.discoveredOnLocalAddress));
        var newPm := if pm.internalClient.Some? then pm else WithInternalClient(pm, client.value);
        assert Submission(pm, identity) == Some(newPm);
        var rest := AddMappings(service, identity, templates[1..], client, outcomes[1..]);
        AddStep(service, identity, templates, newPm, outcomes, rest);
        AddRun((if outcomes[0].Succeeded? then [newPm] else []) + rest.added,
               CallReport(AddCalled(service, newPm), Adding, newPm, outcomes[0]) + rest.trace, rest.remaining)
  }

  /** Putting one submitted template's call and refusal in front of the rest of the loop. */
  lemma AddStep(service: ServiceId, identity: DeviceIdentity, templates: seq<PortMapping>, newPm: PortMapping,
                outcomes: seq<RemoteOutcome>, rest: AddRun)
    requires |templates| > 0 && |outcomes| >= |templates|
    requires Submission(templates[0], identity) == Some(newPm)
    requires rest.added == Succeeding(Submitted(templates[1..], identity), outcomes[1..])
    requires CallsIn(rest.trace) == AddCalls(service, Submitted(templates[1..], identity))
    requires MessagesIn(rest.trace) == AddMessages(templates[1..], identity, outcomes[1..])
    requires rest.remaining == outcomes[1..][|Submitted(templates[1..], identity)|..]
    ensures var trace := CallReport(AddCalled(service, newPm), Adding, newPm, outcomes[0]) + rest.trace;
            && (if outcomes[0].Succeeded? then [newPm] else []) + rest.added == Succeeding(Submitted(templates, identity), outcomes)
            && CallsIn(trace) == AddCalls(service, Submitted(templates, identity))
            && MessagesIn(trace) == AddMessages(templates, identity, outcomes)
            && rest.remaining == outcomes[|Submitted(templates, identity)|..]
  {
    var head := CallReport(AddCalled(service, newPm), Adding, newPm, outcomes[0]);
    CallsInAppend(head, rest.trace);
    MessagesInAppend(head, rest.trace);
    var submitted := Submitted(templates, identity);
    assert submitted == [newPm] + Submitted(templates[1..], identity);
    assert submitted[0] == newPm && submitted[1..] == Submitted(templates[1..], identity);
    FirstOutcome(outcomes, |submitted|);
  }

  /**
   * `deviceAdded` (lines 93-150). A device without a connection service changes
   * nothing and calls nothing. Otherwise one add call is made per submitted
   * mapping, in template order; the service's entry becomes exactly the mappings
   * whose add succeeded, replacing any earlier entry; every other entry is kept;
   * each failed add yields the mapping and then the reason, and each unresolvable
   * template the non-remote message.
   */
  function DeviceAdded(l: Listener, device: Device, outcomes: seq<RemoteOutcome>): (r: Step)
    requires |outcomes| >= |l.portMappings|
    ensures r.listener.portMappings == l.portMappings
    ensures DiscoverConnectionService(device).None? ==> r == Step(l, [], outcomes)
    ensures DiscoverConnectionService(device).Some? ==>
              var id := DiscoverConnectionService(device).value.id;
              var submitted := Submitted(l.portMappings, device.identity);
              && r.listener.active == l.active[id := Succeeding(submitted, outcomes)]
              && CallsIn(r.trace) == AddCalls(id, submitted)
              && |MessagesIn(r.trace)| == 2 * FailureCount(outcomes[..|submitted|]) + Unresolvable(l.portMappings, device.identity)
              && MessagesIn(r.trace) == AddMessages(l.portMappings, device.identity, outcomes)
              && r.remaining == outcomes[|submitted|..]
    ensures DiscoverConnectionService(device).Some? && device.identity.RemoteIdentity? ==>
              MessagesIn(r.trace) == FailureMessages(Adding, Submitted(l.portMappings, device.identity), outcomes)
  {
    match DiscoverConnectionService(device)
    case None => Step(l, [], outcomes)
    case Some(service) =>
      var run := AddMappings(service.id, device.identity, l.portMappings, None, outcomes);
      Step(l.(active := l.active[service.id := run.added]), run.trace, run.remaining)
  }

  // ---------------------------------------------------------------------------
  // deviceRemoved
  // ---------------------------------------------------------------------------

  /** The identities of a list of services. */
  function Ids(services: seq<Service>): set<ServiceId> {
    set i | 0 <= i < |services| :: services[i].id
  }

  /** The keys whose mapping list is not empty. */
  function NonEmptyKeys(active: map<ServiceId, seq<PortMapping>>): set<ServiceId> {
    set k | k in active && |active[k]| > 0
  }

  lemma IdsCons(services: seq<Service>)
    requires |services| > 0
    ensures Ids(services) == {services[0].id} + Ids(services[1..])
  {
    forall id | id in Ids(services) ensures id in {services[0].id} + Ids(services[1..]) {
      var i :| 0 <= i < |services| && services[i].id == id;
      if i > 0 {
        assert services[1..][i - 1] == services[i];
      }
    }
  }

  /** Dropping a key that is present: the counted keys split off that key. */
  lemma DropPresentKey(active: map<ServiceId, seq<PortMapping>>, id: ServiceId, rest: set<ServiceId>)
    requires id in active
    ensures |NonEmptyKeys(active) * ({id} + rest)|
            == (if |active[id]| > 0 then 1 else 0) + |NonEmptyKeys(active - {id}) * rest|
  {
    var smaller := NonEmptyKeys(active - {id}) * rest;
    var counted := NonEmptyKeys(active) * ({id} + rest);
    assert id !in smaller;
    assert counted - {id} == smaller by {
      forall k | k in counted - {id} ensures k in smaller {
        assert k in active - {id};
      }
    }
    if |active[id]| > 0 {
      assert counted == {id} + smaller;
    } else {
      assert counted == smaller;
    }
  }

  /** Dropping a key and then the rest is dropping them all at once. */
  lemma DropKeyThenRest(active: map<ServiceId, seq<PortMapping>>, id: ServiceId, rest: set<ServiceId>)
    ensures active - ({id} + rest) == (active - {id}) - rest
  {
  }

  /** Dropping a key that is absent changes nothing. */
  lemma DropAbsentKey(active: map<ServiceId, seq<PortMapping>>, id: ServiceId, rest: set<ServiceId>)
    requires id !in active
    ensures NonEmptyKeys(active) * ({id} + rest) == NonEmptyKeys(active) * rest
    ensures active - ({id} + rest) == active - rest
  {
  }

  /**
   * The messages of lines 154-165, service by service: for a service whose entry is
   * still present and not empty, "device disappeared" with the size of the list;
   * the entry is then gone, so a service listed twice reports once.
   */
  function RemovalMessages(active: map<ServiceId, seq<PortMapping>>, services: seq<Service>): (r: seq<Message>)
    ensures |r| == |NonEmptyKeys(active) * Ids(services)|
    decreases |services|
  {
    if |services| == 0 then
      assert Ids(services) == {};
      []
    else
      var id := services[0].id;
      IdsCons(services);
      if id in active then
        var message := if |active[id]| > 0 then [DeviceDisappeared(|active[id]|)] else [];
        var rest := RemovalMessages(active - {id}, services[1..]);
        DropPresentKey(active, id, Ids(services[1..]));
        message + rest
      else
        DropAbsentKey(active, id, Ids(services[1..]));
        RemovalMessages(active, services[1..])
  }

  /** Each removal message gives the size of a dropped, non-empty entry of one of the services. */
  lemma {:induction false} RemovalMessagesNameDropped(active: map<ServiceId, seq<PortMapping>>, services: seq<Service>)
    ensures forall i :: 0 <= i < |RemovalMessages(active, services)| ==>
              && RemovalMessages(active, services)[i].DeviceDisappeared?
              && exists k :: k in active && k in Ids(services) && RemovalMessages(active, services)[i].count == |active[k]| > 0
    decreases |services|
  {
    if |services| > 0 {
      var id := services[0].id;
      var r := RemovalMessages(active, services);
      IdsCons(services);
      if id in active {
        var message := if |active[id]| > 0 then [DeviceDisappeared(|active[id]|)] else [];
        var rest := RemovalMessages(active - {id}, services[1..]);
        RemovalMessagesNameDropped(active - {id}, services[1..]);
        assert r == message + rest;
        forall i | 0 <= i < |r|
          ensures r[i].DeviceDisappeared? && exists k :: k in active && k in Ids(services) && r[i].count == |active[k]| > 0
        {
          if i < |message| {
            assert r[i].count == |active[id]|;
          } else {
            assert r[i] == rest[i - |message|];
          }
        }
      } else {
        RemovalMessagesNameDropped(active, services[1..]);
      }
    }
  }

  /**
   * The loops of lines 154-165: for each service of the device, drop its entry,
   * with one failure message giving the list's size when the list was not empty.
   */
  function RemoveEntries(active: map<ServiceId, seq<PortMapping>>, services: seq<Service>): (r: (map<ServiceId, seq<PortMapping>>, seq<Event>))
    ensures r.0 == active - Ids(services)
    ensures CallsIn(r.1) == []
    ensures |MessagesIn(r.1)| == |NonEmptyKeys(active) * Ids(services)|
    ensures forall i :: 0 <= i < |r.1| ==> r.1[i].FailureMessage? && r.1[i].message.DeviceDisappeared? && r.1[i].message.count > 0
    ensures MessagesIn(r.1) == RemovalMessages(active, services)
    decreases |services|
  {
    if |services| == 0 then
      assert Ids(services) == {};
      (active, [])
    else
      var id := services[0].id;
      IdsCons(services);
      if id in active then
        var message := if |active[id]| > 0 then [FailureMessage(DeviceDisappeared(|active[id]|))] else [];
        var next := RemoveEntries(active - {id}, services[1..]);
        CallsInAppend(message, next.1);
        MessagesInAppend(message, next.1);
        DropPresentKey(active, id, Ids(services[1..]));
        DropKeyThenRest(active, id, Ids(services[1..]));
        (next.0, message + next.1)
      else
        DropAbsentKey(active, id, Ids(services[1..]));
        RemoveEntries(active, services[1..])
  }

  /**
   * `deviceRemoved` (lines 152-166): every entry keyed by one of the device's
   * services is dropped, one failure message per dropped non-empty list, no remote
   * call, and every other entry is kept.
   */
  function DeviceRemoved(l: Listener, device: Device): (r: (Listener, seq<Event>))
    ensures r.0.portMappings == l.portMappings
    ensures r.0.active.Keys == l.active.Keys - Ids(device.allServices)
    ensures forall k :: k in r.0.active ==> r.0.active[k] == l.active[k]
    ensures CallsIn(r.1) == []
    ensures |MessagesIn(r.1)| == |NonEmptyKeys(l.active) * Ids(device.allServices)|
    ensures MessagesIn(r.1) == RemovalMessages(l.active, device.allServices)
  {
    var (active, trace) := RemoveEntries(l.active, device.allServices);
    (l.(active := active), trace)
  }

  // ---------------------------------------------------------------------------
  // beforeShutdown
  // ---------------------------------------------------------------------------

  /** The result of deleting one service's mappings. */
  datatype DeleteRun = DeleteRun(kept: seq<PortMapping>, trace: seq<Event>, remaining: seq<RemoteOutcome>)

  /**
   * The inner loop of lines 172-195: one delete call per mapping, in list order; a
   * success removes the mapping through the iterator, a failure keeps it and yields
   * the mapping and then the reason.
   */
  function DeleteMappings(service: ServiceId, mappings: seq<PortMapping>, outcomes: seq<RemoteOutcome>): (r: DeleteRun)
    requires |outcomes| >= |mappings|
    ensures r.kept == Failing(mappings, outcomes)
    ensures CallsIn(r.trace) == DeleteCalls(service, mappings)
    ensures |MessagesIn(r.trace)| == 2 * FailureCount(outcomes[..|mappings|])
    ensures MessagesIn(r.trace) == FailureMessages(Deleting, mappings, outcomes)
    ensures r.remaining == outcomes[|mappings|..]
  {
    if |mappings| == 0 then DeleteRun([], [], outcomes)
    else
      var pm := mappings[0];
      var rest := DeleteMappings(service, mappings[1..], outcomes[1..]);
      var head := CallReport(DeleteCalled(service, pm), Deleting, pm, outcomes[0]);
      CallsInAppend(head, rest.trace);
      MessagesInAppend(head, rest.trace);
      assert MessagesIn(head + rest.trace) == FailureMessages(Deleting, mappings, outcomes);
      DeleteRun((if outcomes[0].Failed? then [pm] else []) + rest.kept, head + rest.trace, rest.remaining)
  }

  /** The number of mappings recorded under the keys of `order`. */
  function Total(active: map<ServiceId, seq<PortMapping>>, order: seq<ServiceId>): nat
    requires forall i :: 0 <= i < |order| ==> order[i] in active
  {
    if |order| == 0 then 0 else |active[order[0]]| + Total(active, order[1..])
  }

  /** The number of mappings recorded under the first `j` keys of `order`. */
  function Offset(active: map<ServiceId, seq<PortMapping>>, order: seq<ServiceId>, j: nat): nat
    requires forall i :: 0 <= i < |order| ==> order[i] in active
    requires j <= |order|
  {
    if j == 0 then 0 else |active[order[0]]| + Offset(active, order[1..], j - 1)
  }

  /** The delete calls for the keys of `order`, key after key. */
  function AllDeleteCalls(active: map<ServiceId, seq<PortMapping>>, order: seq<ServiceId>): seq<Event>
    requires forall i :: 0 <= i < |order| ==> order[i] in active
  {
    if |order| == 0 then [] else DeleteCalls(order[0], active[order[0]]) + AllDeleteCalls(active, order[1..])
  }

  /** `order` lists distinct keys of `active`. */
  predicate DistinctKeys(active: map<ServiceId, seq<PortMapping>>, order: seq<ServiceId>) {
    && (forall i :: 0 <= i < |order| ==> order[i] in active)
    && (forall i, j :: 0 <= i < j < |order| ==> order[i] != order[j])
  }

  lemma {:induction false} TotalUnaffected(active: map<ServiceId, seq<PortMapping>>, order: seq<ServiceId>, key: ServiceId, v: seq<PortMapping>)
    requires forall i :: 0 <= i < |order| ==> order[i] in active
    requires key !in order
    ensures Total(active[key := v], order) == Total(active, order)
    ensures AllDeleteCalls(active[key := v], order) == AllDeleteCalls(active, order)
  {
    if |order| > 0 {
      TotalUnaffected(active, order[1..], key, v);
    }
  }

  lemma {:induction false} FailureCountAppend(a: seq<RemoteOutcome>, b: seq<RemoteOutcome>)
    ensures FailureCount(a + b) == FailureCount(a) + FailureCount(b)
  {
    if |a| == 0 {
      assert a + b == b;
    } else {
      assert (a + b)[0] == a[0];
      assert (a + b)[1..] == a[1..] + b;
      FailureCountAppend(a[1..], b);
    }
  }

  /** Counting the failures among the first `n` outcomes, in two parts. */
  lemma FailureCountSplit(outcomes: seq<RemoteOutcome>, remaining: seq<RemoteOutcome>, m: nat, n: nat)
    requires m <= n <= |outcomes| && remaining == outcomes[m..]
    ensures FailureCount(outcomes[..n]) == FailureCount(outcomes[..m]) + FailureCount(remaining[..n - m])
  {
    assert outcomes[..n] == outcomes[..m] + remaining[..n - m];
    FailureCountAppend(outcomes[..m], remaining[..n - m]);
  }

  /** Failed outcomes split a list into the mappings kept and the mappings dropped. */
  lemma {:induction false} FailingSucceedingCount(mappings: seq<PortMapping>, outcomes: seq<RemoteOutcome>)
    requires |outcomes| >= |mappings|
    ensures |Failing(mappings, outcomes)| == FailureCount(outcomes[..|mappings|])
    ensures |Failing(mappings, outcomes)| + |Succeeding(mappings, outcomes)| == |mappings|
  {
    if |mappings| > 0 {
      FailingSucceedingCount(mappings[1..], outcomes[1..]);
      assert outcomes[..|mappings|][1..] == outcomes[1..][..|mappings| - 1];
    }
  }

  lemma {:induction false} TotalAppend(active: map<ServiceId, seq<PortMapping>>, a: seq<ServiceId>, b: seq<ServiceId>)
    requires forall i :: 0 <= i < |a| ==> a[i] in active
    requires forall i :: 0 <= i < |b| ==> b[i] in active
    ensures Total(active, a + b) == Total(active, a) + Total(active, b)
  {
    if |a| == 0 {
      assert a + b == b;
    } else {
      assert (a + b)[0] == a[0];
      assert (a + b)[1..] == a[1..] + b;
      TotalAppend(active, a[1..], b);
    }
  }

  /** The keys after the first are distinct keys too, and the first is not among them. */
  lemma DistinctTail(active: map<ServiceId, seq<PortMapping>>, order: seq<ServiceId>)
    requires DistinctKeys(active, order) && |order| > 0
    ensures order[0] !in order[1..]
    ensures DistinctKeys(active, order[1..])
  {
    forall i | 0 <= i < |order[1..]| ensures order[1..][i] != order[0] {
      assert order[1..][i] == order[i + 1];
    }
  }

  /**
   * The lists the shutdown loop leaves, apart from its trace: the list of each
   * key of `order` reduced to the mappings whose delete failed, each key using the
   * outcomes that follow those of the keys before it.
   */
  function FailedLists(active: map<ServiceId, seq<PortMapping>>, order: seq<ServiceId>, outcomes: seq<RemoteOutcome>): (r: map<ServiceId, seq<PortMapping>>)
    requires forall i :: 0 <= i < |order| ==> order[i] in active
    requires |outcomes| >= Total(active, order)
    ensures r.Keys == active.Keys
    decreases |order|
  {
    if |order| == 0 then active
    else
      var key := order[0];
      FailedLists(active, order[1..], outcomes[|active[key]|..])[key := Failing(active[key], outcomes)]
  }

  /**
   * The messages of the shutdown loop: the refusals of each key's deletes, key
   * after key in `order`, each key answered by the outcomes after those of the
   * keys before it.
   */
  function ShutdownFailureMessages(active: map<ServiceId, seq<PortMapping>>, order: seq<ServiceId>, outcomes: seq<RemoteOutcome>): (r: seq<Message>)
    requires forall i :: 0 <= i < |order| ==> order[i] in active
    requires |outcomes| >= Total(active, order)
    ensures |r| == 2 * FailureCount(outcomes[..Total(active, order)])
    decreases |order|
  {
    if |order| == 0 then
      assert outcomes[..0] == [];
      []
    else
      var m := |active[order[0]]|;
      FailureCountSplit(outcomes, outcomes[m..], m, Total(active, order));
      FailureMessages(Deleting, active[order[0]], outcomes) + ShutdownFailureMessages(active, order[1..], outcomes[m..])
  }

  /** The result of the shutdown loop. */
  datatype ShutdownRun = ShutdownRun(active: map<ServiceId, seq<PortMapping>>, trace: seq<Event>, remaining: seq<RemoteOutcome>)

  /**
   * The outer loop of lines 170-196 over the entries in `order`, each entry's
   * list updated in place. The keys are distinct, so what the later keys leave
   * does not depend on the first key's list: the first key's deletes come first
   * in the trace, the other keys are processed on the remaining outcomes, and the
   * first key's list is replaced by the mappings its deletes kept. Every recorded
   * mapping gets one delete call, key after key, and no key is added or removed.
   */
  function ShutdownEntries(active: map<ServiceId, seq<PortMapping>>, order: seq<ServiceId>, outcomes: seq<RemoteOutcome>): (r: ShutdownRun)
    requires DistinctKeys(active, order)
    requires |outcomes| >= Total(active, order)
    ensures r.active == FailedLists(active, order, outcomes)
    ensures r.active.Keys == active.Keys
    ensures CallsIn(r.trace) == AllDeleteCalls(active, order)
    ensures MessagesIn(r.trace) == ShutdownFailureMessages(active, order, outcomes)
    ensures r.remaining == outcomes[Total(active, order)..]
    decreases |order|
  {
    if |order| == 0 then ShutdownRun(active, [], outcomes)
    else
      var key := order[0];
      var run := DeleteMappings(key, active[key], outcomes);
      DistinctTail(active, order);
      var rest := ShutdownEntries(active, order[1..], run.remaining);
      CallsInAppend(run.trace, rest.trace);
      MessagesInAppend(run.trace, rest.trace);
      ShutdownRun(rest.active[key := run.kept], run.trace + rest.trace, rest.remaining)
  }

  /**
   * Shutdown emits two messages per failed delete, and the mappings left under
   * the keys of `order` are exactly as many as the failed deletes.
   */
  lemma {:induction false} ShutdownMessages(active: map<ServiceId, seq<PortMapping>>, order: seq<ServiceId>, outcomes: seq<RemoteOutcome>)
    requires DistinctKeys(active, order)
    requires |outcomes| >= Total(active, order)
    ensures |MessagesIn(ShutdownEntries(active, order, outcomes).trace)| == 2 * FailureCount(outcomes[..Total(active, order)])
    ensures Total(ShutdownEntries(active, order, outcomes).active, order) == FailureCount(outcomes[..Total(active, order)])
    decreases |order|, 1
  {
    if |order| == 0 {
      assert outcomes[..0] == [];
    } else {
      ShutdownMessagesStep(active, order, outcomes);
    }
  }

  /** The inductive step of `ShutdownMessages`. */
  lemma {:induction false} ShutdownMessagesStep(active: map<ServiceId, seq<PortMapping>>, order: seq<ServiceId>, outcomes: seq<RemoteOutcome>)
    requires DistinctKeys(active, order)
    requires |outcomes| >= Total(active, order)
    requires |order| > 0
    ensures |MessagesIn(ShutdownEntries(active, order, outcomes).trace)| == 2 * FailureCount(outcomes[..Total(active, order)])
    ensures Total(ShutdownEntries(active, order, outcomes).active, order) == FailureCount(outcomes[..Total(active, order)])
    decreases |order|, 0
  {
    var key := order[0];
    var run := DeleteMappings(key, active[key], outcomes);
    DistinctTail(active, order);
    var rest := ShutdownEntries(active, order[1..], run.remaining);
    assert ShutdownEntries(active, order, outcomes) == ShutdownRun(rest.active[key := run.kept], run.trace + rest.trace, rest.remaining);
    ShutdownMessages(active, order[1..], run.remaining);
    MessagesInAppend(run.trace, rest.trace);
    FailingSucceedingCount(active[key], outcomes);
    FailureCountSplit(outcomes, run.remaining, |active[key]|, Total(active, order));
    // The later keys' lists are not touched by storing the first key's.
    TotalUnaffected(rest.active, order[1..], key, run.kept);
  }

  /** The mappings under the first `j` keys and under key `j` are among those under all keys. */
  lemma {:induction false} OffsetBound(active: map<ServiceId, seq<PortMapping>>, order: seq<ServiceId>, j: nat)
    requires forall i :: 0 <= i < |order| ==> order[i] in active
    requires j < |order|
    ensures Offset(active, order, j) + |active[order[j]]| <= Total(active, order)
    decreases j
  {
    if j > 0 {
      OffsetBound(active, order[1..], j - 1);
      assert order[1..][j - 1] == order[j];
    }
  }

  /** Dropping `m` outcomes and then `n` more is dropping `m + n`. */
  lemma DropTwice(outcomes: seq<RemoteOutcome>, m: nat, n: nat)
    requires m + n <= |outcomes|
    ensures outcomes[m..][n..] == outcomes[m + n..]
  {
  }

  /**
   * Each list is left holding exactly the mappings whose delete failed, in their
   * original order; its deletes consumed the outcomes that follow those of the
   * keys before it in `order`.
   */
  lemma {:induction false} FailedListsAt(active: map<ServiceId, seq<PortMapping>>, order: seq<ServiceId>, outcomes: seq<RemoteOutcome>, j: nat)
    requires DistinctKeys(active, order)
    requires |outcomes| >= Total(active, order)
    requires j < |order|
    ensures Offset(active, order, j) + |active[order[j]]| <= Total(active, order)
    ensures FailedLists(active, order, outcomes)[order[j]]
            == Failing(active[order[j]], outcomes[Offset(active, order, j)..])
    decreases j
  {
    OffsetBound(active, order, j);
    if j > 0 {
      var m := |active[order[0]]|;
      var o := Offset(active, order[1..], j - 1);
      DistinctTail(active, order);
      FailedListsAt(active, order[1..], outcomes[m..], j - 1);
      assert order[1..][j - 1] == order[j];
      DropTwice(outcomes, m, o);
    }
  }

  /**
   * `beforeShutdown` (lines 168-197), with the map's iteration order given as
   * `order`: one delete call per recorded mapping, on the service it is recorded
   * under, key after key in that order; the key set is unchanged; each failed
   * delete yields the mapping and then the reason.
   */
  function BeforeShutdown(l: Listener, order: seq<ServiceId>, outcomes: seq<RemoteOutcome>): (r: Step)
    requires DistinctKeys(l.active, order)
    requires forall k :: k in l.active ==> k in order
    requires |outcomes| >= Total(l.active, order)
    ensures r.listener.portMappings == l.portMappings
    ensures r.listener.active.Keys == l.active.Keys
    ensures CallsIn(r.trace) == AllDeleteCalls(l.active, order)
    ensures |MessagesIn(r.trace)| == 2 * FailureCount(outcomes[..Total(l.active, order)])
    ensures |MessagesIn(r.trace)| == 2 * Total(r.listener.active, order)
    ensures MessagesIn(r.trace) == ShutdownFailureMessages(l.active, order, outcomes)
    ensures r.remaining == outcomes[Total(l.active, order)..]
  {
    var run := ShutdownEntries(l.active, order, outcomes);
    ShutdownMessages(l.active, order, outcomes);
    Step(l.(active := run.active), run.trace, run.remaining)
  }

  /**
   * After shutdown, each list holds exactly the mappings whose delete failed,
   * in their original order.
   */
  lemma BeforeShutdownLeavesFailed(l: Listener, order: seq<ServiceId>, outcomes: seq<RemoteOutcome>)
    requires DistinctKeys(l.active, order)
    requires forall k :: k in l.active ==> k in order
    requires |outcomes| >= Total(l.active, order)
    ensures forall j :: 0 <= j < |order| ==>
              && Offset(l.active, order, j) + |l.active[order[j]]| <= Total(l.active, order)
              && BeforeShutdown(l, order, outcomes).listener.active[order[j]]
                 == Failing(l.active[order[j]], outcomes[Offset(l.active, order, j)..])
  {
    forall j | 0 <= j < |order|
      ensures && Offset(l.active, order, j) + |l.active[order[j]]| <= Total(l.active, order)
              && BeforeShutdown(l, order, outcomes).listener.active[order[j]]
                 == Failing(l.active[order[j]], outcomes[Offset(l.active, order, j)..])
    {
      FailedListsAt(l.active, order, outcomes, j);
    }
  }

  /** Total of zero means every list under `order` is empty. */
  lemma {:induction false} ZeroTotalMeansEmpty(active: map<ServiceId, seq<PortMapping>>, order: seq<ServiceId>)
    requires forall i :: 0 <= i < |order| ==> order[i] in active
    requires Total(active, order) == 0
    ensures forall i :: 0 <= i < |order| ==> active[order[i]] == []
  {
    if |order| > 0 {
      ZeroTotalMeansEmpty(active, order[1..]);
      forall i | 0 < i < |order| ensures active[order[i]] == [] {
        assert order[1..][i - 1] == order[i];
      }
    }
  }

  /** One delete call per recorded mapping, each on a key of `order`. */
  lemma {:induction false} AllDeleteCallsShape(active: map<ServiceId, seq<PortMapping>>, order: seq<ServiceId>)
    requires forall i :: 0 <= i < |order| ==> order[i] in active
    ensures |AllDeleteCalls(active, order)| == Total(active, order)
    ensures forall e :: e in AllDeleteCalls(active, order) ==> e.DeleteCalled? && e.service in order
  {
    if |order| > 0 {
      AllDeleteCallsShape(active, order[1..]);
      DeleteCallsShape(order[0], active[order[0]]);
      forall e | e in AllDeleteCalls(active, order)
        ensures e.DeleteCalled? && e.service in order
      {
        if e in DeleteCalls(order[0], active[order[0]]) {
        } else {
          assert e in AllDeleteCalls(active, order[1..]);
          var k :| 0 <= k < |order[1..]| && order[1..][k] == e.service;
          assert order[k + 1] == e.service;
        }
      }
    }
  }

  lemma {:induction false} DeleteCallsShape(service: ServiceId, mappings: seq<PortMapping>)
    ensures |DeleteCalls(service, mappings)| == |mappings|
    ensures forall e :: e in DeleteCalls(service, mappings) ==> e.DeleteCalled? && e.service == service && e.mapping in mappings
  {
    if |mappings| > 0 {
      DeleteCallsShape(service, mappings[1..]);
    }
  }

  /**
   * If every delete succeeds, shutdown makes one delete call per recorded mapping
   * and leaves every list empty, but keeps every key.
   */
  lemma ShutdownAllSucceeded(l: Listener, order: seq<ServiceId>, outcomes: seq<RemoteOutcome>)
    requires DistinctKeys(l.active, order)
    requires forall k :: k in l.active ==> k in order
    requires |outcomes| >= Total(l.active, order)
    requires forall i :: 0 <= i < Total(l.active, order) ==> outcomes[i].Succeeded?
    ensures |CallsIn(BeforeShutdown(l, order, outcomes).trace)| == Total(l.active, order)
    ensures forall k :: k in l.active ==> k in BeforeShutdown(l, order, outcomes).listener.active
    ensures forall k :: k in l.active ==> BeforeShutdown(l, order, outcomes).listener.active[k] == []
    ensures MessagesIn(BeforeShutdown(l, order, outcomes).trace) == []
  {
    var r := BeforeShutdown(l, order, outcomes);
    AllDeleteCallsShape(l.active, order);
    NoFailures(outcomes[..Total(l.active, order)]);
    ZeroTotalMeansEmpty(r.listener.active, order);
    forall k | k in l.active ensures r.listener.active[k] == [] {
      var i :| 0 <= i < |order| && order[i] == k;
    }
  }

  lemma {:induction false} NoFailures(outcomes: seq<RemoteOutcome>)
    requires forall i :: 0 <= i < |outcomes| ==> outcomes[i].Succeeded?
    ensures FailureCount(outcomes) == 0
  {
    if |outcomes| > 0 {
      NoFailures(outcomes[1..]);
    }
  }

  /** Every mapping stored by `deviceAdded` names its internal client. */
  lemma {:induction false} StoredMappingsAreResolved(templates: seq<PortMapping>, identity: DeviceIdentity, outcomes: seq<RemoteOutcome>)
    requires |outcomes| >= |templates|
    ensures forall m :: m in Succeeding(Submitted(templates, identity), outcomes) ==> m.internalClient.Some?
  {
    SubmittedAreResolved(templates, identity);
    SucceedingIsSubset(Submitted(templates, identity), outcomes);
  }

  lemma {:induction false} SubmittedAreResolved(templates: seq<PortMapping>, identity: DeviceIdentity)
    ensures forall m :: m in Submitted(templates, identity) ==> m.internalClient.Some?
  {
    if |templates| > 0 {
      SubmittedAreResolved(templates[1..], identity);
    }
  }

  lemma {:induction false} SucceedingIsSubset(mappings: seq<PortMapping>, outcomes: seq<RemoteOutcome>)
    requires |outcomes| >= |mappings|
    ensures forall m :: m in Succeeding(mappings, outcomes) ==> m in mappings
  {
    if |mappings| > 0 {
      SucceedingIsSubset(mappings[1..], outcomes[1..]);
    }
  }

  // ---------------------------------------------------------------------------
  // Scenarios
  // ---------------------------------------------------------------------------

  const ServiceA := Service(ServiceId(1), IpServiceType)
  const LanAddress := Net.Inet4([192, 168, 1, 20])

  function Gateway(identity: DeviceIdentity): Device {
    Device(IgdDeviceType, identity, [ConnectionDevice([ServiceA])], [ServiceA])
  }

  function Template(externalPort: nat, client: Option<string>): PortMapping {
    PortMapping(true, 0, None, externalPort, externalPort, client, TCP, Some("game"))
  }

  /** A device that is not an InternetGatewayDevice:1 is ignored. */
  lemma NonGatewayIgnored(l: Listener, device: Device, outcomes: seq<RemoteOutcome>)
    requires |outcomes| >= |l.portMappings|
    requires device.deviceType != IgdDeviceType
    ensures DeviceAdded(l, device, outcomes).listener == l
    ensures DeviceAdded(l, device, outcomes).trace == []
  {
  }

  /**
   * Two templates, the first accepted and the second refused: one mapping is
   * recorded, two add calls are made, and the refusal is reported as two
   * messages, the mapping and the reason.
   */
  lemma {:induction false} OneOfTwoFails()
    ensures var t1 := Template(8080, Some("10.0.0.5"));
            var t2 := Template(9090, None);
            var resolved := t2.(internalClient := Some(Net.HostAddress(LanAddress)));
            var r := DeviceAdded(NewListener([t1, t2]), Gateway(RemoteIdentity(LanAddress)), [Succeeded, Failed("ConflictInMappingEntry")]);
            && r.listener.active == map[ServiceA.id := [t1]]
            && CallsIn(r.trace) == [AddCalled(ServiceA.id, t1), AddCalled(ServiceA.id, resolved)]
            && |MessagesIn(r.trace)| == 2
            && MessagesIn(r.trace) == [AddFailed(resolved), Reason("ConflictInMappingEntry")]
  {
    var t1 := Template(8080, Some("10.0.0.5"));
    var t2 := Template(9090, None);
    var identity := RemoteIdentity(LanAddress);
    var resolved := t2.(internalClient := Some(Net.HostAddress(LanAddress)));
    var outcomes := [Succeeded, Failed("ConflictInMappingEntry")];
    assert FindService([ServiceA], IpServiceType) == Some(ServiceA);
    assert DiscoverConnectionService(Gateway(identity)) == Some(ServiceA);
    assert Submitted([t2], identity) == [resolved] by {
      assert Submission(t2, identity) == Some(resolved);
      assert [t2][1..] == [];
    }
    assert Submitted([t1, t2], identity) == [t1, resolved] by {
      assert Submission(t1, identity) == Some(t1);
      assert [t1, t2][1..] == [t2];
    }
    assert Succeeding([t1, resolved], outcomes) == [t1] by {
      assert [t1, resolved][1..] == [resolved];
      assert outcomes[1..] == [Failed("ConflictInMappingEntry")];
      assert Succeeding([resolved], outcomes[1..]) == [];
    }
    assert AddCalls(ServiceA.id, [t1, resolved]) == [AddCalled(ServiceA.id, t1), AddCalled(ServiceA.id, resolved)] by {
      assert [t1, resolved][1..] == [resolved];
      assert [resolved][1..] == [];
      assert AddCalls(ServiceA.id, [resolved]) == [AddCalled(ServiceA.id, resolved)];
    }
    assert FailureCount(outcomes[..2]) == 1 by {
      assert outcomes[..2] == outcomes;
      assert outcomes[1..] == [Failed("ConflictInMappingEntry")];
    }
    assert FailureMessages(Adding, [t1, resolved], outcomes) == [AddFailed(resolved), Reason("ConflictInMappingEntry")] by {
      assert [t1, resolved][1..] == [resolved];
      assert outcomes[1..] == [Failed("ConflictInMappingEntry")];
      assert [resolved][1..] == [];
      assert FailureMessages(Adding, [resolved], outcomes[1..]) == [AddFailed(resolved), Reason("ConflictInMappingEntry")];
    }
    assert Unresolvable([t1, t2], identity) == 0 by {
      assert Submission(t1, identity).Some? && Submission(t2, identity).Some?;
      assert [t1, t2][1..] == [t2];
      assert [t2][1..] == [];
      assert Unresolvable([t2], identity) == 0;
    }
  }

  /**
   * A gateway that goes away with an active mapping yields one message, and the
   * following shutdown makes no call on its service.
   */
  lemma RemovedThenShutdown(l: Listener, device: Device, i: nat, after: Listener, messages: seq<Event>,
                            order: seq<ServiceId>, outcomes: seq<RemoteOutcome>)
    requires i < |device.allServices|
    requires device.allServices[i].id in l.active && |l.active[device.allServices[i].id]| > 0
    requires (after, messages) == DeviceRemoved(l, device)
    requires DistinctKeys(after.active, order)
    requires forall k :: k in after.active ==> k in order
    requires |outcomes| >= Total(after.active, order)
    ensures |MessagesIn(messages)| >= 1
    ensures device.allServices[i].id !in after.active
    ensures forall e :: e in CallsIn(BeforeShutdown(after, order, outcomes).trace) ==>
              e.DeleteCalled? && e.service != device.allServices[i].id
  {
    var id := device.allServices[i].id;
    assert id in Ids(device.allServices);
    assert id in NonEmptyKeys(l.active) * Ids(device.allServices);
    var r := BeforeShutdown(after, order, outcomes);
    AllDeleteCallsShape(after.active, order);
    forall e | e in CallsIn(r.trace) ensures e.DeleteCalled? && e.service != id {
      var j :| 0 <= j < |order| && order[j] == e.service;
      assert order[j] in after.active;
    }
  }
}
