# UPnPIGD core, modelled in Dafny

This project models three parts of UPnPIGD, a Java UPnP stack used to open
port mappings on Internet Gateway Devices:

- **`NetworkAddressFactoryImpl`** decides which local network interfaces and
  IPv4 addresses the stack binds to. It parses comma-separated allow-lists,
  filters interfaces (down, no address, virtual adapters, PPP links, loopback, allow-list)
  and addresses (IPv4, not loopback, allow-list), discovers the bind addresses
  and refuses to start without a network when told to. It also answers the
  lookups (broadcast address, prefix length, local address for a remote peer).
  These rely on its byte-wise `isInSubnet` test.
- **`PortMappingListener`** reacts to registry events. When an
  InternetGatewayDevice appears, it adds the configured port mappings on the
  device's WAN IP (or PPP) connection service. When the device disappears, it
  forgets them. At shutdown, it deletes them again.
- **`XmlPullParserUtils`** holds the parser helpers:
  - a namespace-prefix-tolerant, case-insensitive tag comparison;
  - a depth-first tag search;
  - a repair that escapes stray ampersands in gateway XML.

Files:

| file | contents |
|---|---|
| `wrappers.dfy` | `Option`, `Result`, `Outcome` |
| `text.dfy` | the `java.lang.String` operations used: ASCII lower-casing, `equalsIgnoreCase`, `startsWith`, `contains`, `isBlank`, `split(",")` |
| `subnet.dfy` | `isInSubnet` with Java's arithmetic and its bit-level CIDR reference (section 3.1 of RFC 4632) |
| `network_address_factory.dfy` | allow-lists, filters, discovery, construction, lookups, iterator removal |
| `port_mapping_listener.dfy` | the listener as a pure state machine over `map<ServiceId, seq<PortMapping>>` |
| `xml_utils.dfy` | tag comparison, tag search, entity repair |

**Listener events.** Each event handler is a function from the listener state to
a `Step`. A `Step` holds the new state, the trace of remote calls and failure
messages, and the unused remote outcomes. The gateway's answer to each add or
delete call is not computed: it is the next element of an outcome sequence
passed in.

**Shutdown order.** The Java `HashMap` iterates its entries in some order. For
shutdown, that order is given as a sequence `order` that lists every key once.

**Interface snapshot.** The operating system's interface list is a parameter of
the factory's constructor. The values of the system properties are fields of a
`Config` record.

**Behaviour worth noting:**

- `isInSubnet(192.168.1.50, 192.168.1.0, 25)` holds: 50 is below 128, so bit 25
  is 0 in both addresses. `ExampleSubnets` proves it holds for /24, /25 and /26
  and fails for /27.
- An interface named `vboxnet0` is rejected even when the allow-list names it.
  The name checks come before the allow-list check.
- Removing an interface through `getNetworkInterfaces()` leaves its bind
  addresses in place.
- A failed add or delete logs two messages: one naming the mapping, then the
  reason.
- After shutdown, every key of the active table is still present. Its list holds
  only the mappings whose delete failed, so it is empty when all deletes succeed.

## Model

| member | source | states |
|---|---|---|
| Subnet.JavaDiv | UPnPIGD-Core/src/main/java/com/distrimind/upnp_igd/transport/impl/NetworkAddressFactoryImpl.java:291 | Java `int` division: equal to Euclidean division on non-negative dividends, never positive for negative ones |
| Subnet.IsInSubnet | UPnPIGD-Core/src/main/java/com/distrimind/upnp_igd/transport/impl/NetworkAddressFactoryImpl.java:286-308 | false for addresses of different lengths or a prefix whose byte count exceeds the length; for a non-negative prefix, true exactly when the two addresses agree on their first min(prefix, 8·length) bits |
| Subnet.JavaMask | UPnPIGD-Core/src/main/java/com/distrimind/upnp_igd/transport/impl/NetworkAddressFactoryImpl.java:304 | the byte mask for 0 to 7 remaining bits has exactly the top bits set: 0x00, 0x80, 0xC0, …, 0xFE |
| Subnet.MatchFrom | UPnPIGD-Core/src/main/java/com/distrimind/upnp_igd/transport/impl/NetworkAddressFactoryImpl.java:295-307 | when the remaining prefix covers every remaining byte, the loop succeeds exactly when the rest of the two addresses are equal |
| Subnet.MaskedEqualIffTopBitsAgree | UPnPIGD-Core/src/main/java/com/distrimind/upnp_igd/transport/impl/NetworkAddressFactoryImpl.java:304-306 | comparing two bytes under the mask is comparing their top b bits |
| Subnet.MatchFromAgrees | UPnPIGD-Core/src/main/java/com/distrimind/upnp_igd/transport/impl/NetworkAddressFactoryImpl.java:295-306 | from byte i, the whole-byte loop followed by the masked byte compares exactly the next `prefix` bits, or up to the end of the address |
| Subnet.AllBitsAgreeIffEqual | UPnPIGD-Core/src/main/java/com/distrimind/upnp_igd/transport/impl/NetworkAddressFactoryImpl.java:286-308 | agreeing on the first 8·n bits is having equal first n bytes |
| Subnet.PrefixZeroContainsAll | UPnPIGD-Core/src/main/java/com/distrimind/upnp_igd/transport/impl/NetworkAddressFactoryImpl.java:286-308 | with prefix 0, every address of the same length is contained |
| Subnet.WholeAddressPrefixMeansEquality | UPnPIGD-Core/src/main/java/com/distrimind/upnp_igd/transport/impl/NetworkAddressFactoryImpl.java:286-308 | with a prefix covering the whole address, containment is equality |
| Subnet.InSubnetReflexive | UPnPIGD-Core/src/main/java/com/distrimind/upnp_igd/transport/impl/NetworkAddressFactoryImpl.java:286-308 | an address is in its own subnet for every prefix the byte-count check admits |
| Subnet.InSubnetMonotone | UPnPIGD-Core/src/main/java/com/distrimind/upnp_igd/transport/impl/NetworkAddressFactoryImpl.java:286-308 | shortening a non-negative prefix keeps an address contained |
| Subnet.NegativePrefixContainsAll | UPnPIGD-Core/src/main/java/com/distrimind/upnp_igd/transport/impl/NetworkAddressFactoryImpl.java:290-306 | a prefix from -23 to -1 contains every address of the same length: the loop is skipped and the mask works out to zero |
| Subnet.ExampleSubnets | UPnPIGD-Core/src/main/java/com/distrimind/upnp_igd/transport/impl/NetworkAddressFactoryImpl.java:286-308 | 192.168.1.50 is in 192.168.1.0/24, /25 and /26 and not in /27 |
| Text.SplitComma | UPnPIGD-Core/src/main/java/com/distrimind/upnp_igd/transport/impl/NetworkAddressFactoryImpl.java:78 | `split(",")`: no piece holds a comma; the empty string gives one empty piece; trailing empty pieces are dropped; joining the pieces with commas gives the input minus trailing commas |
| NetworkAddressFactory.AllowList | UPnPIGD-Core/src/main/java/com/distrimind/upnp_igd/transport/impl/NetworkAddressFactoryImpl.java:82-86 | an absent list is empty; otherwise a name is admitted exactly when it is one of the comma-separated pieces |
| NetworkAddressFactory.InterfaceAllowList | UPnPIGD-Core/src/main/java/com/distrimind/upnp_igd/transport/impl/NetworkAddressFactoryImpl.java:68-80 | the explicit argument's list unless it is absent or blank, else the system property's list |
| NetworkAddressFactory.AddressAllowList | UPnPIGD-Core/src/main/java/com/distrimind/upnp_igd/transport/impl/NetworkAddressFactoryImpl.java:82-86 | the address list comes only from the system property: absent gives the empty set, otherwise exactly the comma-separated pieces |
| NetworkAddressFactory.EmptyPropertyIsNotAbsent | UPnPIGD-Core/src/main/java/com/distrimind/upnp_igd/transport/impl/NetworkAddressFactoryImpl.java:82-86 | an empty property value yields the allow-list {""}, which is non-empty and admits no named address |
| NetworkAddressFactory.IsUsableNetworkInterface | UPnPIGD-Core/src/main/java/com/distrimind/upnp_igd/transport/impl/NetworkAddressFactoryImpl.java:362-431 | usable exactly when none of the built-in rejections apply (down, no address, a virtual-adapter or `ppp` name, VMware display name, loopback) and the allow-list is empty or names the interface |
| NetworkAddressFactory.MulticastNeverRejects | UPnPIGD-Core/src/main/java/com/distrimind/upnp_igd/transport/impl/NetworkAddressFactoryImpl.java:427-430 | the multicast flag never changes whether an interface is usable |
| NetworkAddressFactory.VboxnetRejectedEvenIfListed | UPnPIGD-Core/src/main/java/com/distrimind/upnp_igd/transport/impl/NetworkAddressFactoryImpl.java:392-397 | `vboxnet0` is rejected even with the allow-list {"vboxnet0"} |
| NetworkAddressFactory.VirtualOnlyTestedOnName | UPnPIGD-Core/src/main/java/com/distrimind/upnp_igd/transport/impl/NetworkAddressFactoryImpl.java:399-404 | "virtual" in the display name alone does not reject an interface |
| NetworkAddressFactory.IsUsableAddress | UPnPIGD-Core/src/main/java/com/distrimind/upnp_igd/transport/impl/NetworkAddressFactoryImpl.java:497-520 | usable exactly when IPv4, not loopback, and (with a non-empty allow-list) its host text is listed |
| NetworkAddressFactory.DiscoverNetworkInterfaces | UPnPIGD-Core/src/main/java/com/distrimind/upnp_igd/transport/impl/NetworkAddressFactoryImpl.java:310-337 | the result holds exactly the usable interfaces of the snapshot and is no longer than it |
| NetworkAddressFactory.DiscoverNetworkInterfacesKeepsOrder | UPnPIGD-Core/src/main/java/com/distrimind/upnp_igd/transport/impl/NetworkAddressFactoryImpl.java:310-337 | the interfaces are filtered in enumeration order: a concatenation gives the two parts' results one after the other, and a single interface is kept exactly when usable |
| NetworkAddressFactory.UsableAddresses | UPnPIGD-Core/src/main/java/com/distrimind/upnp_igd/transport/impl/NetworkAddressFactoryImpl.java:445-464 | one interface's collected addresses are all usable and no more numerous than its address entries |
| NetworkAddressFactory.UsableAddressesMembership | UPnPIGD-Core/src/main/java/com/distrimind/upnp_igd/transport/impl/NetworkAddressFactoryImpl.java:445-464 | an address is collected from an interface exactly when it is one of its non-null entries and usable |
| NetworkAddressFactory.CollectUsable | UPnPIGD-Core/src/main/java/com/distrimind/upnp_igd/transport/impl/NetworkAddressFactoryImpl.java:445-464 | the inner loop over one interface's addresses collects the usable non-null entries in their order, as the recursive definition does |
| NetworkAddressFactory.KeptInterfaces | UPnPIGD-Core/src/main/java/com/distrimind/upnp_igd/transport/impl/NetworkAddressFactoryImpl.java:466-471 | the interfaces left after the removal each have a usable address, and there are no more of them than before |
| NetworkAddressFactory.AllUsableAddresses | UPnPIGD-Core/src/main/java/com/distrimind/upnp_igd/transport/impl/NetworkAddressFactoryImpl.java:445-464 | every bind address is usable, and the list is non-empty when the first interface has a usable address |
| NetworkAddressFactory.DiscoverBindAddresses | UPnPIGD-Core/src/main/java/com/distrimind/upnp_igd/transport/impl/NetworkAddressFactoryImpl.java:433-478 | the kept interfaces are those with a usable address, in order; the bind list is all their usable addresses, interface after interface |
| NetworkAddressFactory.KeptIsFilter | UPnPIGD-Core/src/main/java/com/distrimind/upnp_igd/transport/impl/NetworkAddressFactoryImpl.java:466-471 | an interface is kept exactly when it is an input with at least one usable address |
| NetworkAddressFactory.KeptKeepAllAddresses | UPnPIGD-Core/src/main/java/com/distrimind/upnp_igd/transport/impl/NetworkAddressFactoryImpl.java:466-471 | removing the interfaces without usable addresses loses no bind address |
| NetworkAddressFactory.AllUsableAddressesMembership | UPnPIGD-Core/src/main/java/com/distrimind/upnp_igd/transport/impl/NetworkAddressFactoryImpl.java:445-464 | an address is bound exactly when some interface contributes it |
| NetworkAddressFactory.KeptIffAddresses | UPnPIGD-Core/src/main/java/com/distrimind/upnp_igd/transport/impl/NetworkAddressFactoryImpl.java:433-478 | the kept interface list is empty exactly when the bind list is |
| NetworkAddressFactory.BindAddressesHaveOwner | UPnPIGD-Core/src/main/java/com/distrimind/upnp_igd/transport/impl/NetworkAddressFactoryImpl.java:433-478 | after discovery every bind address belongs to a kept interface |
| NetworkAddressFactory.KeptInterfacesContribute | UPnPIGD-Core/src/main/java/com/distrimind/upnp_igd/transport/impl/NetworkAddressFactoryImpl.java:433-478 | after discovery every kept interface contributes a bind address |
| NetworkAddressFactory.NewFactory | UPnPIGD-Core/src/main/java/com/distrimind/upnp_igd/transport/impl/NetworkAddressFactoryImpl.java:66-102 | fails exactly when a network is required and discovery leaves no interface or no address; otherwise holds the allow-lists, the discovered lists and the ports, satisfies the snapshot invariant, and `hasUsableNetwork` is true exactly when an interface was kept |
| NetworkAddressFactory.HasUsableNetwork | UPnPIGD-Core/src/main/java/com/distrimind/upnp_igd/transport/impl/NetworkAddressFactoryImpl.java:173-175 | on a discovered snapshot, a usable network exists exactly when some interface is listed: the bind list is then non-empty too |
| NetworkAddressFactory.FirstIn | UPnPIGD-Core/src/main/java/com/distrimind/upnp_igd/transport/impl/NetworkAddressFactoryImpl.java:199-206 | the first non-null interface address satisfying the test, or none when no entry does |
| NetworkAddressFactory.FirstAcross | UPnPIGD-Core/src/main/java/com/distrimind/upnp_igd/transport/impl/NetworkAddressFactoryImpl.java:198-207 | the first hit over all interfaces' addresses in order, or none when there is no hit |
| NetworkAddressFactory.GetBroadcastAddress | UPnPIGD-Core/src/main/java/com/distrimind/upnp_igd/transport/impl/NetworkAddressFactoryImpl.java:197-208 | the broadcast address of the first interface address bound to `a`, null when there is none |
| NetworkAddressFactory.GetAddressNetworkPrefixLength | UPnPIGD-Core/src/main/java/com/distrimind/upnp_igd/transport/impl/NetworkAddressFactoryImpl.java:210-224 | the first matching entry's prefix length when strictly between 0 and 32, otherwise null; any answer lies in that range |
| NetworkAddressFactory.GetBindAddressInSubnetOf | UPnPIGD-Core/src/main/java/com/distrimind/upnp_igd/transport/impl/NetworkAddressFactoryImpl.java:261-284 | the address of the first entry that is a bind address and whose subnet contains `remote`; any answer is a bind address |
| NetworkAddressFactory.GetLocalAddress | UPnPIGD-Core/src/main/java/com/distrimind/upnp_igd/transport/impl/NetworkAddressFactoryImpl.java:226-251 | the address of the first interface entry whose bind address puts `remote` in its subnet, whatever the interface and IPv6 arguments; none when no entry does |
| NetworkAddressFactory.LocalAddressIgnoresInterface | UPnPIGD-Core/src/main/java/com/distrimind/upnp_igd/transport/impl/NetworkAddressFactoryImpl.java:226-251 | the interface and IPv6 arguments never change the answer |
| NetworkAddressFactory.RemoveInterfaceAt | UPnPIGD-Core/src/main/java/com/distrimind/upnp_igd/transport/impl/NetworkAddressFactoryImpl.java:150-160 | drops interface i, shifts the later ones down, keeps the bind list |
| NetworkAddressFactory.RemoveBindAddressAt | UPnPIGD-Core/src/main/java/com/distrimind/upnp_igd/transport/impl/NetworkAddressFactoryImpl.java:162-172 | drops bind address i, shifts the later ones down, keeps the interface list |
| NetworkAddressFactory.RemovingInterfaceKeepsItsAddresses | UPnPIGD-Core/src/main/java/com/distrimind/upnp_igd/transport/impl/NetworkAddressFactoryImpl.java:150-160 | removing the only interface of a well-formed factory breaks the snapshot invariant, because its address stays bound |
| PortMappingListener.NewListener | UPnPIGD-Core/src/main/java/com/distrimind/upnp_igd/support/igd/PortMappingListener.java:85-91 | holds the given templates and no active mapping |
| PortMappingListener.CallsInAppend | UPnPIGD-Core/src/main/java/com/distrimind/upnp_igd/support/igd/PortMappingListener.java:131-146 | the remote calls of two trace segments are the calls of each, in order |
| PortMappingListener.MessagesInAppend | UPnPIGD-Core/src/main/java/com/distrimind/upnp_igd/support/igd/PortMappingListener.java:141-145 | the failure messages of two trace segments are the messages of each, in order |
| PortMappingListener.FindService | UPnPIGD-Core/src/main/java/com/distrimind/upnp_igd/support/igd/PortMappingListener.java:218 | a service of the requested type from the list, none exactly when the list has none |
| PortMappingListener.DiscoverConnectionService | UPnPIGD-Core/src/main/java/com/distrimind/upnp_igd/support/igd/PortMappingListener.java:199-227 | an answer needs an InternetGatewayDevice:1 with a connection device and is a WANIPConnection:1 service of its first connection device, or WANPPPConnection:1 when there is no IP one; such a service exists only if there is an answer |
| PortMappingListener.Submitted | UPnPIGD-Core/src/main/java/com/distrimind/upnp_igd/support/igd/PortMappingListener.java:105-129 | the mappings sent to the gateway: templates with a client as they are, the others with the device's discovery address, all dropped for a local device |
| PortMappingListener.CallReport | UPnPIGD-Core/src/main/java/com/distrimind/upnp_igd/support/igd/PortMappingListener.java:131-146 | a call's trace starts with the call itself and continues only with messages: none on success, the mapping and then the reason on a refusal |
| PortMappingListener.FailureMessages | UPnPIGD-Core/src/main/java/com/distrimind/upnp_igd/support/igd/PortMappingListener.java:142-145 | the messages of a run of calls are two per refused call |
| PortMappingListener.FailureMessagesNameFailing | UPnPIGD-Core/src/main/java/com/distrimind/upnp_igd/support/igd/PortMappingListener.java:188-191 | the messages come in pairs, one per refused mapping in order: the pair's first message names the mapping (add or delete), and the second is a reason |
| PortMappingListener.RemoteResolvesAll | UPnPIGD-Core/src/main/java/com/distrimind/upnp_igd/support/igd/PortMappingListener.java:109-117 | for a remotely discovered device no template is skipped, and every template is submitted |
| PortMappingListener.AddMessages | UPnPIGD-Core/src/main/java/com/distrimind/upnp_igd/support/igd/PortMappingListener.java:105-147 | two messages per refused add plus one per template that cannot get a client; with none of the latter, exactly the refusals of the submitted mappings in order |
| PortMappingListener.AddMappings | UPnPIGD-Core/src/main/java/com/distrimind/upnp_igd/support/igd/PortMappingListener.java:105-147 | one add call per submitted mapping in order; the accepted ones are recorded; the messages are, template by template, the non-remote message for a template that cannot get a client and the mapping and then the reason for each refused add, so for a remote device exactly the refusals of the submitted mappings; the rest of the outcomes is returned |
| PortMappingListener.DeviceAdded | UPnPIGD-Core/src/main/java/com/distrimind/upnp_igd/support/igd/PortMappingListener.java:93-150 | without a connection service nothing changes and nothing is called; otherwise the service's entry becomes the accepted mappings, other entries are untouched, and calls and messages are those of the add loop: for a remote device, the mapping and then the reason for each refused add, in order |
| PortMappingListener.RemovalMessages | UPnPIGD-Core/src/main/java/com/distrimind/upnp_igd/support/igd/PortMappingListener.java:160-161 | one message per dropped non-empty entry of the device's services |
| PortMappingListener.RemovalMessagesNameDropped | UPnPIGD-Core/src/main/java/com/distrimind/upnp_igd/support/igd/PortMappingListener.java:160-161 | every removal message is "device disappeared" with the size of a dropped, non-empty entry of one of the device's services |
| PortMappingListener.RemoveEntries | UPnPIGD-Core/src/main/java/com/distrimind/upnp_igd/support/igd/PortMappingListener.java:154-165 | drops the entries of the device's services, makes no call, and logs, service by service, "device disappeared" with the size of the dropped list for each entry that was present and not empty |
| PortMappingListener.DeviceRemoved | UPnPIGD-Core/src/main/java/com/distrimind/upnp_igd/support/igd/PortMappingListener.java:152-166 | the remaining keys are the old ones minus the device's services, every other entry is unchanged, no call is made, and the messages are, service by service, "device disappeared" with the size of each non-empty dropped list |
| PortMappingListener.DeleteMappings | UPnPIGD-Core/src/main/java/com/distrimind/upnp_igd/support/igd/PortMappingListener.java:172-195 | one delete call per recorded mapping in order; the list keeps exactly the refused ones; for each refusal in order, a message naming the mapping, then the reason |
| PortMappingListener.ShutdownEntries | UPnPIGD-Core/src/main/java/com/distrimind/upnp_igd/support/igd/PortMappingListener.java:170-196 | the lists left are those of `FailedLists`, the reference without a trace; the keys stay the same; the calls are each entry's delete calls in `order`; the messages are each entry's refusals in `order`; exactly one outcome is used per recorded mapping |
| PortMappingListener.ShutdownMessages | UPnPIGD-Core/src/main/java/com/distrimind/upnp_igd/support/igd/PortMappingListener.java:188-192 | shutdown logs two messages per refused delete, and the mappings left are exactly as many as the refusals |
| PortMappingListener.FailedListsAt | UPnPIGD-Core/src/main/java/com/distrimind/upnp_igd/support/igd/PortMappingListener.java:170-196 | the entry visited j-th keeps exactly its mappings refused by the outcomes from its offset on, the offset being the number of mappings under the entries before it |
| PortMappingListener.ShutdownFailureMessages | UPnPIGD-Core/src/main/java/com/distrimind/upnp_igd/support/igd/PortMappingListener.java:170-196 | shutdown's messages are two per refused delete |
| PortMappingListener.BeforeShutdown | UPnPIGD-Core/src/main/java/com/distrimind/upnp_igd/support/igd/PortMappingListener.java:168-197 | templates and keys unchanged; one delete call per recorded mapping; the messages are each entry's refusals, the mapping and then the reason, entry after entry, twice as many as the mappings that remain |
| PortMappingListener.BeforeShutdownLeavesFailed | UPnPIGD-Core/src/main/java/com/distrimind/upnp_igd/support/igd/PortMappingListener.java:170-196 | after shutdown every list holds exactly its refused mappings, in their original order |
| PortMappingListener.AllDeleteCallsShape | UPnPIGD-Core/src/main/java/com/distrimind/upnp_igd/support/igd/PortMappingListener.java:170-196 | shutdown makes as many calls as there are recorded mappings, each a delete on a listed service |
| PortMappingListener.DeleteCallsShape | UPnPIGD-Core/src/main/java/com/distrimind/upnp_igd/support/igd/PortMappingListener.java:172-195 | one delete per mapping, each on the entry's service and for one of its mappings |
| PortMappingListener.ZeroTotalMeansEmpty | UPnPIGD-Core/src/main/java/com/distrimind/upnp_igd/support/igd/PortMappingListener.java:170-196 | no mapping left in total means every list is empty |
| PortMappingListener.ShutdownAllSucceeded | UPnPIGD-Core/src/main/java/com/distrimind/upnp_igd/support/igd/PortMappingListener.java:168-197 | when every delete is accepted: one call per mapping, every key kept with an empty list, no message |
| PortMappingListener.NoFailures | UPnPIGD-Core/src/main/java/com/distrimind/upnp_igd/support/igd/PortMappingListener.java:188-192 | outcomes that all succeed count no refusal |
| PortMappingListener.StoredMappingsAreResolved | UPnPIGD-Core/src/main/java/com/distrimind/upnp_igd/support/igd/PortMappingListener.java:105-138 | every mapping recorded by `deviceAdded` names its internal client |
| PortMappingListener.SubmittedAreResolved | UPnPIGD-Core/src/main/java/com/distrimind/upnp_igd/support/igd/PortMappingListener.java:105-129 | every mapping sent to the gateway names its internal client |
| PortMappingListener.SucceedingIsSubset | UPnPIGD-Core/src/main/java/com/distrimind/upnp_igd/support/igd/PortMappingListener.java:134-139 | only submitted mappings are recorded |
| PortMappingListener.WithInternalClient | UPnPIGD-Core/src/main/java/com/distrimind/upnp_igd/support/igd/PortMappingListener.java:120-128 | the built mapping names the given internal client and otherwise equals its template |
| PortMappingListener.Submission | UPnPIGD-Core/src/main/java/com/distrimind/upnp_igd/support/igd/PortMappingListener.java:105-129 | a template with a client is sent as is; without one, a copy naming the discovery address is sent for a remote device; nothing is sent exactly when the template has no client and the device is not remote |
| PortMappingListener.NonGatewayIgnored | UPnPIGD-Core/src/main/java/com/distrimind/upnp_igd/support/igd/PortMappingListener.java:199-202 | a device that is not an InternetGatewayDevice:1 changes nothing and causes no call |
| PortMappingListener.OneOfTwoFails | UPnPIGD-Core/src/main/java/com/distrimind/upnp_igd/support/igd/PortMappingListener.java:105-149 | two templates, the second refused: two add calls, only the first recorded, and the messages are the resolved second mapping, then the reason "ConflictInMappingEntry" |
| PortMappingListener.RemovedThenShutdown | UPnPIGD-Core/src/main/java/com/distrimind/upnp_igd/support/igd/PortMappingListener.java:152-197 | a departed gateway with active mappings logs a message, loses its entry, and gets no delete call at the next shutdown |
| XmlPullParserUtils.IsNullOrEmpty | src/main/java/com/distrimind/upnp_igd/xml/XmlPullParserUtils.java:103-105 | true exactly for null and for the empty string |
| XmlPullParserUtils.TagsEquals | src/main/java/com/distrimind/upnp_igd/xml/XmlPullParserUtils.java:160-163 | true exactly when some suffix of the found tag that starts it or follows a ':' equals the wanted tag ignoring case |
| XmlPullParserUtils.TagMatchesItselfAndItsPrefixedForms | src/main/java/com/distrimind/upnp_igd/xml/XmlPullParserUtils.java:160-163 | a tag matches itself, `prefix:tag`, and the lower-cased `prefix:tag` |
| XmlPullParserUtils.UnprefixedTagMatchesOnlyWhole | src/main/java/com/distrimind/upnp_igd/xml/XmlPullParserUtils.java:160-163 | without ':' in the found tag, matching is case-insensitive equality |
| XmlPullParserUtils.ExampleTags | src/main/java/com/distrimind/upnp_igd/xml/XmlPullParserUtils.java:160-163 | `s:Envelope` matches `envelope`, `a:b:c` matches `b:c`; `envelope` does not match `s:Envelope`, nor `xEnvelope` `envelope` |
| XmlPullParserUtils.SearchChildren | src/main/java/com/distrimind/upnp_igd/xml/XmlPullParserUtils.java:115-124 | the loop over children from i on succeeds exactly when one of those children matches or has a match below it |
| XmlPullParserUtils.SearchTagImpl | src/main/java/com/distrimind/upnp_igd/xml/XmlPullParserUtils.java:113-125 | the search succeeds exactly when some child matches or the search below some child succeeds |
| XmlPullParserUtils.SearchTagImplFindsDescendant | src/main/java/com/distrimind/upnp_igd/xml/XmlPullParserUtils.java:113-125 | the search succeeds exactly when some descendant matches |
| XmlPullParserUtils.RootIsNotSearched | src/main/java/com/distrimind/upnp_igd/xml/XmlPullParserUtils.java:113-125 | an element's own tag is never compared: a leaf with the wanted tag is not found |
| XmlPullParserUtils.SearchTag | src/main/java/com/distrimind/upnp_igd/xml/XmlPullParserUtils.java:107-111 | passes exactly when some descendant matches, else fails with "Tag '<tag>' not found" |
| XmlPullParserUtils.RecognizedIsTheSixTests | src/main/java/com/distrimind/upnp_igd/xml/XmlPullParserUtils.java:140-141 | the six `startsWith` tests are membership of the text's start in the entity list |
| XmlPullParserUtils.WindowSuffices | src/main/java/com/distrimind/upnp_igd/xml/XmlPullParserUtils.java:139-141 | testing the ten-character window decides as testing the whole rest of the text |
| XmlPullParserUtils.FixXmlEntities | src/main/java/com/distrimind/upnp_igd/xml/XmlPullParserUtils.java:127-157 | null stays null; otherwise the result is the per-character repair of the whole text, and the warning is logged exactly when some ampersand was escaped |
| XmlPullParserUtils.RepairedPrefixSplit | src/main/java/com/distrimind/upnp_igd/xml/XmlPullParserUtils.java:134-150 | what the loop has written after i characters, followed by the repair of the rest, is the repair of the whole text |
| XmlPullParserUtils.NoAmpersandUnchanged | src/main/java/com/distrimind/upnp_igd/xml/XmlPullParserUtils.java:147-149 | text without an ampersand is unchanged |
| XmlPullParserUtils.WellFormedUnchanged | src/main/java/com/distrimind/upnp_igd/xml/XmlPullParserUtils.java:137-146 | text whose every ampersand begins a recognised entity is unchanged |
| XmlPullParserUtils.FixedIsWellFormed | src/main/java/com/distrimind/upnp_igd/xml/XmlPullParserUtils.java:137-146 | every ampersand of repaired text begins a recognised entity |
| XmlPullParserUtils.FixIsIdempotent | src/main/java/com/distrimind/upnp_igd/xml/XmlPullParserUtils.java:127-157 | repairing twice is repairing once |
| XmlPullParserUtils.FixLength | src/main/java/com/distrimind/upnp_igd/xml/XmlPullParserUtils.java:140-143 | the repair adds exactly four characters per escaped ampersand |
| XmlPullParserUtils.ExampleStrayAmpersand | src/main/java/com/distrimind/upnp_igd/xml/XmlPullParserUtils.java:137-143 | `a&b` becomes `a&amp;b` |
| XmlPullParserUtils.ExampleEntitiesKept | src/main/java/com/distrimind/upnp_igd/xml/XmlPullParserUtils.java:140-146 | `&lt;x&gt;` is unchanged |

## Left out

- Enumerating the operating system's interfaces is not modelled: the snapshot is a parameter. Neither is the `InitializationException` wrapping of enumeration errors.
- System properties are read as fields of `Config`. Setting `java.net.preferIPv4Stack` is a side effect with no bearing on the result.
- `getHardwareAddress`, `getMulticastGroup`, `getMulticastPort`, `getStreamListenPort` and `logInterfaceInformation` are platform queries, constants or logging only.
- All logging is omitted, except the listener's failure messages and the entity repair's warning flag.
- Locks and `synchronized` blocks are omitted: every operation is a pure function of its inputs.
- `PortMappingAdd` and `PortMappingDelete` are not modelled as SOAP actions: each call's result is the next element of the outcome sequence. The text of the failure reason is carried but not built.
- `PortMapping`'s setters and `toString` are not part of this model: a mapping is a record, and a failure message holds the mapping itself.
- FindService: `Device.findService` belongs to a device class that is not part of this model. The model takes it to return the first service of the connection device's own list whose type, version included, equals the requested one.
- HostAddress: an IPv6 address's text has no `%scope` suffix, because the scope id is not part of `InetAddress` here. A mapping whose client comes from an IPv6 discovery address therefore names the address without its scope.
- The iteration order of the active `HashMap` is the `order` parameter of `BeforeShutdown`.
- `RemovedThenShutdown` states at least one message rather than exactly one. A device with several tracked services logs one message per non-empty entry.
- The commented-out fallback of `getLocalAddress` (lines 230-250), which would pick an address of the given interface, is not code and is not modelled.
- jsoup parsing is not part of this model: an element is its tag name and its element children.
- Case folding covers ASCII letters only. `toLowerCase(Locale.ROOT)` and `equalsIgnoreCase` on other characters are not modelled.
- `Subnet.IsInSubnet` states the CIDR reference for non-negative prefixes only. For negative prefixes `NegativePrefixContainsAll` shows that -23 to -1 contain every address; other negative prefixes are left at Java's arithmetic without a reference.
