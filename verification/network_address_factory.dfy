/**
 * `NetworkAddressFactoryImpl`: which local interfaces and IPv4 addresses a UPnP
 * stack binds to, and the read-only queries over that frozen snapshot.
 *
 * The operating system's interface enumeration is an input sequence, the two
 * system properties are optional input strings, and the subclass hook
 * `requiresNetworkInterface()` is a configuration flag.
 */
module NetworkAddressFactory {
  import opened Wrappers
  import opened Text
  import opened Subnet

  // ---------------------------------------------------------------------------
  // Data model
  // ---------------------------------------------------------------------------

  /** `java.net.InetAddress`: equality is the address family plus the raw bytes. */
  datatype InetAddress = Inet4(octets: seq<bv8>) | Inet6(octets: seq<bv8>)

  /** `java.net.InterfaceAddress`: an address bound to an interface, with its subnet. */
  datatype InterfaceAddress = InterfaceAddress(
    address: InetAddress,
    broadcast: Option<InetAddress>,
    networkPrefixLength: Short)

  /**
   * One enumerated `java.net.NetworkInterface`. The two address lists are what
   * `getInetAddresses()` and `getInterfaceAddresses()` return; either may hold nulls.
   */
  datatype NetworkInterface = NetworkInterface(
    name: string,
    displayName: Option<string>,
    isUp: bool,
    isLoopback: bool,
    supportsMulticast: bool,
    inetAddresses: seq<Option<InetAddress>>,
    interfaceAddresses: seq<Option<InterfaceAddress>>)

  /**
   * Constructor arguments and the environment the constructor reads: the explicit
   * interface list, the two system properties, and the `requiresNetworkInterface()` hook.
   */
  datatype Config = Config(
    streamListenPort: int,
    multicastResponsePort: int,
    interfaces: Option<string>,
    interfacesProperty: Option<string>,
    addressesProperty: Option<string>,
    requiresNetworkInterface: bool)

  /** The constructed factory: its allow-lists and the frozen snapshot. */
  datatype Factory = Factory(
    useInterfaces: set<string>,
    useAddresses: set<string>,
    networkInterfaces: seq<NetworkInterface>,
    bindAddresses: seq<InetAddress>,
    streamListenPort: int,
    multicastPort: int)

  /** `NoNetworkException`. */
  datatype InitError = NoNetwork(message: string)

  // ---------------------------------------------------------------------------
  // Addresses
  // ---------------------------------------------------------------------------

  /** `InetAddress.getAddress()`. */
  function Bytes(a: InetAddress): seq<bv8> {
    a.octets
  }

  /** `isLoopbackAddress()`: 127/8 for IPv4, `::1` for IPv6. */
  predicate IsLoopbackAddress(a: InetAddress) {
    match a
    case Inet4(o) => |o| > 0 && o[0] == 127
    case Inet6(o) => |o| == 16 && (forall i :: 0 <= i < 15 ==> o[i] == 0) && o[15] == 1
  }

  function DecimalOctets(o: seq<bv8>): seq<string> {
    seq(|o|, i requires 0 <= i < |o| => DecimalText(o[i] as nat))
  }

  function HexGroups(o: seq<bv8>): seq<string> {
    seq(|o| / 2, i requires 0 <= i < |o| / 2 => HexText(256 * (o[2 * i] as nat) + o[2 * i + 1] as nat))
  }

  /**
   * `getHostAddress()`: dotted decimal for IPv4; for IPv6 the eight groups in
   * lower-case hexadecimal without zero compression (scope ids are not modelled).
   */
  function HostAddress(a: InetAddress): string {
    match a
    case Inet4(o) => Join(DecimalOctets(o), '.')
    case Inet6(o) => Join(HexGroups(o), ':')
  }

  // ---------------------------------------------------------------------------
  // Allow-lists
  // ---------------------------------------------------------------------------

  function ToSet(parts: seq<string>): (r: set<string>)
    ensures forall x :: x in r <==> x in parts
  {
    set x | x in parts
  }

  /** A comma-separated list as a set, untrimmed; an absent list is the empty set. */
  function AllowList(csv: Option<string>): (r: set<string>)
    ensures csv.None? ==> r == {}
    ensures csv.Some? ==> forall x :: x in r <==> x in SplitComma(csv.value)
  {
    match csv
    case None => {}
    case Some(s) => ToSet(SplitComma(s))
  }

  /**
   * The interface allow-list (lines 68-80): the explicit argument unless it is
   * absent or blank, else the system property. The code adds the split list to the
   * set twice, which changes nothing.
   */
  function InterfaceAllowList(config: Config): (r: set<string>)
    ensures config.interfaces.Some? && !IsBlank(config.interfaces.value) ==>
              r == AllowList(config.interfaces)
    ensures (config.interfaces.None? || IsBlank(config.interfaces.value)) ==>
              r == AllowList(config.interfacesProperty)
  {
    var chosen := if config.interfaces.Some? && !IsBlank(config.interfaces.value) then config.interfaces
                  else config.interfacesProperty;
    AllowList(chosen) + AllowList(chosen)
  }

  /** The address allow-list (lines 82-86): only ever the system property. */
  function AddressAllowList(config: Config): (r: set<string>)
    ensures config.addressesProperty.None? ==> r == {}
    ensures config.addressesProperty.Some? ==>
              forall x :: x in r <==> x in SplitComma(config.addressesProperty.value)
  {
    AllowList(config.addressesProperty)
  }

  /** An empty property value splits into one empty name: a non-empty allow-list that admits nothing named. */
  lemma EmptyPropertyIsNotAbsent()
    ensures AllowList(Some("")) == {""}
  {
  }

  // ---------------------------------------------------------------------------
  // Filters
  // ---------------------------------------------------------------------------

  /**
   * The rejected name patterns, tested on the lower-cased name only: the virtual
   * adapters (VMware, Parallels, VirtualBox, anything called "virtual") and PPP links.
   */
  predicate RejectedAdapterName(name: string) {
    var lower := ToLower(name);
    || StartsWith(lower, "vmnet")
    || StartsWith(lower, "vnic")
    || StartsWith(lower, "vboxnet")
    || Contains(lower, "virtual")
    || StartsWith(lower, "ppp")
  }

  /** The display-name pattern, `vmnet` anywhere, case-insensitively. */
  predicate VmwareDisplayName(displayName: Option<string>) {
    displayName.Some? && Contains(ToLower(displayName.value), "vmnet")
  }

  /**
   * The built-in rejections of an interface, which no allow-list can override:
   * down, no bound address (null entries count as bound), a virtual-adapter or PPP name,
   * or loopback.
   */
  predicate BuiltInRejected(iface: NetworkInterface) {
    || !iface.isUp
    || |iface.inetAddresses| == 0
    || RejectedAdapterName(iface.name)
    || VmwareDisplayName(iface.displayName)
    || iface.isLoopback
  }

  /**
   * `isUsableNetworkInterface` (lines 362-431): the checks in source order, the
   * allow-list last. Lack of multicast only logs a warning.
   */
  function IsUsableNetworkInterface(iface: NetworkInterface, useInterfaces: set<string>): (r: bool)
    ensures r <==> !BuiltInRejected(iface) && (useInterfaces == {} || iface.name in useInterfaces)
  {
    var lower := ToLower(iface.name);
    if !iface.isUp then false
    else if |iface.inetAddresses| == 0 then false
    else if StartsWith(lower, "vmnet") || VmwareDisplayName(iface.displayName) then false
    else if StartsWith(lower, "vnic") then false
    else if StartsWith(lower, "vboxnet") then false
    else if Contains(lower, "virtual") then false
    else if StartsWith(lower, "ppp") then false
    else if iface.isLoopback then false
    else if useInterfaces != {} && iface.name !in useInterfaces then false
    else true
  }

  /**
   * `isUsableAddress` (lines 497-520): IPv4, not loopback, and admitted by the
   * address allow-list compared against the host text. The interface argument of
   * the source is unused.
   */
  function IsUsableAddress(address: InetAddress, useAddresses: set<string>): (r: bool)
    ensures r ==> address.Inet4?
    ensures r ==> !IsLoopbackAddress(address)
    ensures useAddresses == {} ==> (r <==> address.Inet4? && !IsLoopbackAddress(address))
    ensures useAddresses != {} ==> (r <==> address.Inet4? && !IsLoopbackAddress(address) && HostAddress(address) in useAddresses)
  {
    if !address.Inet4? then false
    else if IsLoopbackAddress(address) then false
    else if useAddresses != {} && HostAddress(address) !in useAddresses then false
    else true
  }

  // ---------------------------------------------------------------------------
  // Discovery
  // ---------------------------------------------------------------------------

  /** `discoverNetworkInterfaces` (lines 310-337): the usable interfaces, in enumeration order. */
  function DiscoverNetworkInterfaces(snapshot: seq<NetworkInterface>, useInterfaces: set<string>): (r: seq<NetworkInterface>)
    ensures |r| <= |snapshot|
    ensures forall x :: x in r <==> x in snapshot && IsUsableNetworkInterface(x, useInterfaces)
  {
    if |snapshot| == 0 then []
    else
      var last := snapshot[|snapshot| - 1];
      DiscoverNetworkInterfaces(snapshot[..|snapshot| - 1], useInterfaces)
        + (if IsUsableNetworkInterface(last, useInterfaces) then [last] else [])
  }

  /**
   * The enumeration is filtered in order: the result for a concatenation is the
   * results for its parts, one after the other, and a single interface is kept
   * exactly when it is usable.
   */
  lemma DiscoverNetworkInterfacesKeepsOrder(a: seq<NetworkInterface>, b: seq<NetworkInterface>, x: NetworkInterface, useInterfaces: set<string>)
    ensures DiscoverNetworkInterfaces(a + b, useInterfaces)
            == DiscoverNetworkInterfaces(a, useInterfaces) + DiscoverNetworkInterfaces(b, useInterfaces)
    ensures DiscoverNetworkInterfaces([x], useInterfaces) == if IsUsableNetworkInterface(x, useInterfaces) then [x] else []
  {
    DiscoverAppend(a, b, useInterfaces);
    assert [x][..0] == [];
  }

  lemma {:induction false} DiscoverAppend(a: seq<NetworkInterface>, b: seq<NetworkInterface>, useInterfaces: set<string>)
    ensures DiscoverNetworkInterfaces(a + b, useInterfaces)
            == DiscoverNetworkInterfaces(a, useInterfaces) + DiscoverNetworkInterfaces(b, useInterfaces)
    decreases |b|
  {
    if |b| == 0 {
      assert a + b == a;
    } else {
      var init := b[..|b| - 1];
      var last := b[|b| - 1];
      var tail := if IsUsableNetworkInterface(last, useInterfaces) then [last] else [];
      assert (a + b)[..|a + b| - 1] == a + init;
      assert (a + b)[|a + b| - 1] == last;
      assert DiscoverNetworkInterfaces(b, useInterfaces) == DiscoverNetworkInterfaces(init, useInterfaces) + tail;
      assert DiscoverNetworkInterfaces(a + b, useInterfaces) == DiscoverNetworkInterfaces(a + init, useInterfaces) + tail;
      DiscoverAppend(a, init, useInterfaces);
    }
  }

  /** The non-null usable addresses among `addrs`, in order. */
  function UsableAddresses(addrs: seq<Option<InetAddress>>, useAddresses: set<string>): (r: seq<InetAddress>)
    ensures |r| <= |addrs|
    ensures forall i :: 0 <= i < |r| ==> IsUsableAddress(r[i], useAddresses)
  {
    if |addrs| == 0 then []
    else
      var last := addrs[|addrs| - 1];
      UsableAddresses(addrs[..|addrs| - 1], useAddresses)
        + (if last.Some? && IsUsableAddress(last.value, useAddresses) then [last.value] else [])
  }

  /** An address is kept exactly when it is a non-null entry and usable. */
  lemma {:induction false} UsableAddressesMembership(addrs: seq<Option<InetAddress>>, useAddresses: set<string>, a: InetAddress)
    ensures a in UsableAddresses(addrs, useAddresses) <==> Some(a) in addrs && IsUsableAddress(a, useAddresses)
  {
    if |addrs| > 0 {
      var init := addrs[..|addrs| - 1];
      UsableAddressesMembership(init, useAddresses, a);
      assert addrs == init + [addrs[|addrs| - 1]];
    }
  }

  /** The interfaces that keep at least one usable address, in order. */
  function KeptInterfaces(ifaces: seq<NetworkInterface>, useAddresses: set<string>): (r: seq<NetworkInterface>)
    ensures |r| <= |ifaces|
    ensures forall i :: 0 <= i < |r| ==> |UsableAddresses(r[i].inetAddresses, useAddresses)| > 0
  {
    if |ifaces| == 0 then []
    else
      var last := ifaces[|ifaces| - 1];
      KeptInterfaces(ifaces[..|ifaces| - 1], useAddresses)
        + (if |UsableAddresses(last.inetAddresses, useAddresses)| > 0 then [last] else [])
  }

  /** All usable addresses of `ifaces`, interface after interface. */
  function AllUsableAddresses(ifaces: seq<NetworkInterface>, useAddresses: set<string>): (r: seq<InetAddress>)
    ensures forall i :: 0 <= i < |r| ==> IsUsableAddress(r[i], useAddresses)
    ensures |ifaces| > 0 && |UsableAddresses(ifaces[0].inetAddresses, useAddresses)| > 0 ==> |r| > 0
  {
    if |ifaces| == 0 then []
    else
      AllUsableAddresses(ifaces[..|ifaces| - 1], useAddresses)
        + UsableAddresses(ifaces[|ifaces| - 1].inetAddresses, useAddresses)
  }

  /**
   * `discoverBindAddresses` (lines 433-478): walks the interfaces, appends each
   * usable non-null address to the bind list, and removes (through the iterator) an
   * interface that contributed none.
   */
  method DiscoverBindAddresses(interfaces: seq<NetworkInterface>, useAddresses: set<string>)
    returns (kept: seq<NetworkInterface>, binds: seq<InetAddress>)
    ensures kept == KeptInterfaces(interfaces, useAddresses)
    ensures binds == AllUsableAddresses(interfaces, useAddresses)
  {
    kept := [];
    binds := [];
    var i := 0;
    while i < |interfaces|
      invariant 0 <= i <= |interfaces|
      invariant kept == KeptInterfaces(interfaces[..i], useAddresses)
      invariant binds == AllUsableAddresses(interfaces[..i], useAddresses)
    {
      var iface := interfaces[i];
      var found := CollectUsable(iface.inetAddresses, useAddresses);
      DiscoverStep(interfaces, i, useAddresses);
      binds := binds + found;
      if |found| != 0 {
        kept := kept + [iface];
      }
      i := i + 1;
    }
    assert interfaces[..i] == interfaces;
  }

  lemma DiscoverStep(interfaces: seq<NetworkInterface>, i: nat, useAddresses: set<string>)
    requires i < |interfaces|
    ensures KeptInterfaces(interfaces[..i + 1], useAddresses)
            == KeptInterfaces(interfaces[..i], useAddresses)
               + (if |UsableAddresses(interfaces[i].inetAddresses, useAddresses)| > 0 then [interfaces[i]] else [])
    ensures AllUsableAddresses(interfaces[..i + 1], useAddresses)
            == AllUsableAddresses(interfaces[..i], useAddresses) + UsableAddresses(interfaces[i].inetAddresses, useAddresses)
  {
    assert interfaces[..i + 1][..i] == interfaces[..i];
  }

  /**
   * The inner loop of lines 445-464: the usable non-null addresses of one
   * interface, in order; their number is the loop's `usableAddresses` count.
   */
  method CollectUsable(addrs: seq<Option<InetAddress>>, useAddresses: set<string>)
    returns (found: seq<InetAddress>)
    ensures found == UsableAddresses(addrs, useAddresses)
  {
    found := [];
    var j := 0;
    while j < |addrs|
      invariant 0 <= j <= |addrs|
      invariant found == UsableAddresses(addrs[..j], useAddresses)
    {
      UsableAddressesStep(addrs, j, useAddresses);
      if addrs[j].Some? && IsUsableAddress(addrs[j].value, useAddresses) {
        found := found + [addrs[j].value];
      }
      j := j + 1;
    }
    assert addrs[..j] == addrs;
  }

  lemma UsableAddressesStep(addrs: seq<Option<InetAddress>>, j: nat, useAddresses: set<string>)
    requires j < |addrs|
    ensures UsableAddresses(addrs[..j + 1], useAddresses)
            == UsableAddresses(addrs[..j], useAddresses)
               + (if addrs[j].Some? && IsUsableAddress(addrs[j].value, useAddresses) then [addrs[j].value] else [])
  {
    assert addrs[..j + 1][..j] == addrs[..j];
  }

  /**
   * The constructor (lines 66-102): allow-lists, interface discovery, address
   * discovery, then the no-network decision.
   */
  method NewFactory(config: Config, snapshot: seq<NetworkInterface>) returns (r: Result<Factory, InitError>)
    ensures var usable := DiscoverNetworkInterfaces(snapshot, InterfaceAllowList(config));
            var kept := KeptInterfaces(usable, AddressAllowList(config));
            var binds := AllUsableAddresses(usable, AddressAllowList(config));
            && (r.Failure? <==> config.requiresNetworkInterface && (|kept| == 0 || |binds| == 0))
            && (r.Success? ==> r.value == Factory(InterfaceAllowList(config), AddressAllowList(config), kept, binds,
                                                  config.streamListenPort, config.multicastResponsePort))
    ensures r.Success? ==> (HasUsableNetwork(r.value) <==> |r.value.networkInterfaces| > 0)
    ensures r.Success? ==> WellFormed(r.value)
  {
    var useInterfaces := InterfaceAllowList(config);
    var useAddresses := AddressAllowList(config);
    var usable := DiscoverNetworkInterfaces(snapshot, useInterfaces);
    var kept, binds := DiscoverBindAddresses(usable, useAddresses);
    KeptIffAddresses(usable, useAddresses);
    KeptKeepAllAddresses(usable, useAddresses);
    KeptIsFilter(usable, useAddresses);
    if |kept| == 0 || |binds| == 0 {
      if config.requiresNetworkInterface {
        return Failure(NoNetwork("Could not discover any usable network interfaces and/or addresses"));
      }
    }
    r := Success(Factory(useInterfaces, useAddresses, kept, binds, config.streamListenPort, config.multicastResponsePort));
  }

  // ---------------------------------------------------------------------------
  // Properties of discovery
  // ---------------------------------------------------------------------------

  /**
   * The snapshot invariant: the bind list is the concatenation of the listed
   * interfaces' usable addresses, and every listed interface has at least one.
   */
  ghost predicate WellFormed(f: Factory) {
    && f.bindAddresses == AllUsableAddresses(f.networkInterfaces, f.useAddresses)
    && (forall k :: 0 <= k < |f.networkInterfaces| ==> |UsableAddresses(f.networkInterfaces[k].inetAddresses, f.useAddresses)| > 0)
  }

  /**
   * `hasUsableNetwork()`. On a discovered snapshot the two emptiness tests agree,
   * so having a listed interface is enough.
   */
  predicate HasUsableNetwork(f: Factory)
    ensures WellFormed(f) ==> (HasUsableNetwork(f) <==> |f.networkInterfaces| > 0)
  {
    |f.networkInterfaces| > 0 && |f.bindAddresses| > 0
  }

  /** Each kept interface is an input interface with a usable address. */
  lemma {:induction false} KeptIsFilter(ifaces: seq<NetworkInterface>, useAddresses: set<string>)
    ensures var kept := KeptInterfaces(ifaces, useAddresses);
            && |kept| <= |ifaces|
            && (forall x :: x in kept <==> x in ifaces && |UsableAddresses(x.inetAddresses, useAddresses)| > 0)
  {
    if |ifaces| > 0 {
      var init := ifaces[..|ifaces| - 1];
      KeptIsFilter(init, useAddresses);
      assert ifaces == init + [ifaces[|ifaces| - 1]];
    }
  }

  /** Dropping the interfaces without usable addresses drops no address. */
  lemma {:induction false} KeptKeepAllAddresses(ifaces: seq<NetworkInterface>, useAddresses: set<string>)
    ensures AllUsableAddresses(KeptInterfaces(ifaces, useAddresses), useAddresses) == AllUsableAddresses(ifaces, useAddresses)
  {
    if |ifaces| > 0 {
      var init := ifaces[..|ifaces| - 1];
      var last := ifaces[|ifaces| - 1];
      KeptKeepAllAddresses(init, useAddresses);
      var keptInit := KeptInterfaces(init, useAddresses);
      if |UsableAddresses(last.inetAddresses, useAddresses)| > 0 {
        assert (keptInit + [last])[..|keptInit|] == keptInit;
      } else {
        assert UsableAddresses(last.inetAddresses, useAddresses) == [];
        assert KeptInterfaces(ifaces, useAddresses) == keptInit;
        assert AllUsableAddresses(ifaces, useAddresses) == AllUsableAddresses(init, useAddresses) + [];
      }
    }
  }

  /** Collecting over two lists of interfaces is collecting over each, one after the other. */
  lemma {:induction false} AllUsableAddressesAppend(a: seq<NetworkInterface>, b: seq<NetworkInterface>, useAddresses: set<string>)
    ensures AllUsableAddresses(a + b, useAddresses) == AllUsableAddresses(a, useAddresses) + AllUsableAddresses(b, useAddresses)
    decreases |b|
  {
    if |b| == 0 {
      assert a + b == a;
    } else {
      var init := b[..|b| - 1];
      var own := UsableAddresses(b[|b| - 1].inetAddresses, useAddresses);
      assert (a + b)[..|a + b| - 1] == a + init;
      assert (a + b)[|a + b| - 1] == b[|b| - 1];
      assert AllUsableAddresses(b, useAddresses) == AllUsableAddresses(init, useAddresses) + own;
      assert AllUsableAddresses(a + b, useAddresses) == AllUsableAddresses(a + init, useAddresses) + own;
      AllUsableAddressesAppend(a, init, useAddresses);
    }
  }

  /** An address an interface contributes is in the concatenation. */
  lemma ContributedIsBound(ifaces: seq<NetworkInterface>, useAddresses: set<string>, b: InetAddress, k: nat)
    requires k < |ifaces| && b in UsableAddresses(ifaces[k].inetAddresses, useAddresses)
    ensures b in AllUsableAddresses(ifaces, useAddresses)
  {
    var before, here, after := ifaces[..k], [ifaces[k]], ifaces[k + 1..];
    assert ifaces == before + here + after;
    assert here[..0] == [];
    assert AllUsableAddresses(here, useAddresses) == UsableAddresses(ifaces[k].inetAddresses, useAddresses);
    AllUsableAddressesAppend(before, here, useAddresses);
    AllUsableAddressesAppend(before + here, after, useAddresses);
  }

  /** An address is in the concatenation exactly when some interface contributes it. */
  lemma {:induction false} AllUsableAddressesMembership(ifaces: seq<NetworkInterface>, useAddresses: set<string>, b: InetAddress)
    ensures b in AllUsableAddresses(ifaces, useAddresses) <==>
              exists k :: 0 <= k < |ifaces| && b in UsableAddresses(ifaces[k].inetAddresses, useAddresses)
  {
    if b in AllUsableAddresses(ifaces, useAddresses) {
      var n := |ifaces| - 1;
      var init := ifaces[..n];
      assert AllUsableAddresses(ifaces, useAddresses)
             == AllUsableAddresses(init, useAddresses) + UsableAddresses(ifaces[n].inetAddresses, useAddresses);
      if b in AllUsableAddresses(init, useAddresses) {
        AllUsableAddressesMembership(init, useAddresses, b);
        var k :| 0 <= k < |init| && b in UsableAddresses(init[k].inetAddresses, useAddresses);
        assert ifaces[k] == init[k];
      } else {
        assert 0 <= n < |ifaces| && b in UsableAddresses(ifaces[n].inetAddresses, useAddresses);
      }
    }
    if exists k :: 0 <= k < |ifaces| && b in UsableAddresses(ifaces[k].inetAddresses, useAddresses) {
      var k :| 0 <= k < |ifaces| && b in UsableAddresses(ifaces[k].inetAddresses, useAddresses);
      ContributedIsBound(ifaces, useAddresses, b, k);
    }
  }

  /** The bind list is empty exactly when the kept interface list is. */
  lemma {:induction false} KeptIffAddresses(ifaces: seq<NetworkInterface>, useAddresses: set<string>)
    ensures |KeptInterfaces(ifaces, useAddresses)| == 0 <==> |AllUsableAddresses(ifaces, useAddresses)| == 0
  {
    if |ifaces| > 0 {
      KeptIffAddresses(ifaces[..|ifaces| - 1], useAddresses);
    }
  }

  /** After discovery every bind address belongs to a kept interface. */
  lemma BindAddressesHaveOwner(ifaces: seq<NetworkInterface>, useAddresses: set<string>, b: InetAddress)
    requires b in AllUsableAddresses(ifaces, useAddresses)
    ensures var kept := KeptInterfaces(ifaces, useAddresses);
            exists k :: 0 <= k < |kept| && b in UsableAddresses(kept[k].inetAddresses, useAddresses)
  {
    var kept := KeptInterfaces(ifaces, useAddresses);
    KeptKeepAllAddresses(ifaces, useAddresses);
    AllUsableAddressesMembership(kept, useAddresses, b);
  }

  /** After discovery every kept interface contributes a bind address. */
  lemma KeptInterfacesContribute(ifaces: seq<NetworkInterface>, useAddresses: set<string>, k: nat)
    requires k < |KeptInterfaces(ifaces, useAddresses)|
    ensures var iface := KeptInterfaces(ifaces, useAddresses)[k];
            exists b :: b in AllUsableAddresses(ifaces, useAddresses) && b in UsableAddresses(iface.inetAddresses, useAddresses)
  {
    var kept := KeptInterfaces(ifaces, useAddresses);
    KeptKeepAllAddresses(ifaces, useAddresses);
    KeptIsFilter(ifaces, useAddresses);
    assert kept[k] in kept;
    var u := UsableAddresses(kept[k].inetAddresses, useAddresses);
    assert u[0] in u;
    AllUsableAddressesMembership(kept, useAddresses, u[0]);
  }

  // ---------------------------------------------------------------------------
  // Properties of the filters
  // ---------------------------------------------------------------------------

  /** Whether an interface supports multicast never decides its usability. */
  lemma MulticastNeverRejects(iface: NetworkInterface, useInterfaces: set<string>, multicast: bool)
    ensures IsUsableNetworkInterface(iface.(supportsMulticast := multicast), useInterfaces)
            == IsUsableNetworkInterface(iface, useInterfaces)
  {
  }

  /** A VirtualBox host-only adapter is rejected even when the allow-list names it. */
  lemma VboxnetRejectedEvenIfListed(addrs: seq<Option<InetAddress>>, ias: seq<Option<InterfaceAddress>>)
    ensures !IsUsableNetworkInterface(NetworkInterface("vboxnet0", Some("vboxnet0"), true, false, true, addrs, ias), {"vboxnet0"})
  {
    assert ToLower("vboxnet0")[..7] == "vboxnet";
  }

  /** `virtual` in the display name alone does not reject an interface. */
  lemma VirtualOnlyTestedOnName(addr: InetAddress)
    ensures IsUsableNetworkInterface(NetworkInterface("eth0", Some("Virtual"), true, false, true, [Some(addr)], []), {})
  {
    var lower := ToLower("eth0");
    assert lower == "eth0";
    assert lower[0] == 'e';
    assert !StartsWith(lower, "vnic") && !StartsWith(lower, "ppp") && !StartsWith(lower, "vmnet");
    assert !Contains(lower, "virtual");
    var d := ToLower("Virtual");
    assert d == "virtual";
    forall k | 0 <= k <= |d|
      ensures !OccursAt(d, "vmnet", k)
    {
      if k + 5 <= |d| {
        assert k == 0 || k == 1 || k == 2;
        assert d[k + 1] != 'm';
      }
    }
  }

  // ---------------------------------------------------------------------------
  // Queries
  // ---------------------------------------------------------------------------

  /** `getInterfaceAddresses` of every listed interface, one after the other, nulls included. */
  function AllInterfaceAddresses(ifaces: seq<NetworkInterface>): seq<Option<InterfaceAddress>> {
    if |ifaces| == 0 then [] else ifaces[0].interfaceAddresses + AllInterfaceAddresses(ifaces[1..])
  }

  /** Position `k` of `ias` holds the first non-null entry satisfying `p`. */
  ghost predicate FirstSatisfyingAt(ias: seq<Option<InterfaceAddress>>, p: InterfaceAddress -> bool, k: int) {
    && 0 <= k < |ias|
    && ias[k].Some? && p(ias[k].value)
    && forall j :: 0 <= j < k && ias[j].Some? ==> !p(ias[j].value)
  }

  /** No non-null entry of `ias` satisfies `p`. */
  ghost predicate NoneSatisfying(ias: seq<Option<InterfaceAddress>>, p: InterfaceAddress -> bool) {
    forall j :: 0 <= j < |ias| && ias[j].Some? ==> !p(ias[j].value)
  }

  /** No entry of a concatenation satisfies `p` exactly when no entry of either part does. */
  lemma NoneSatisfyingAppend(a: seq<Option<InterfaceAddress>>, b: seq<Option<InterfaceAddress>>, p: InterfaceAddress -> bool)
    ensures NoneSatisfying(a + b, p) <==> NoneSatisfying(a, p) && NoneSatisfying(b, p)
  {
    if NoneSatisfying(a, p) && NoneSatisfying(b, p) {
      forall j | 0 <= j < |a + b| && (a + b)[j].Some?
        ensures !p((a + b)[j].value)
      {
        if j >= |a| {
          assert (a + b)[j] == b[j - |a|];
        }
      }
    }
    if NoneSatisfying(a + b, p) {
      forall j | 0 <= j < |a| && a[j].Some?
        ensures !p(a[j].value)
      {
        assert (a + b)[j] == a[j];
      }
      forall j | 0 <= j < |b| && b[j].Some?
        ensures !p(b[j].value)
      {
        assert (a + b)[|a| + j] == b[j];
      }
    }
  }

  /** A first hit in either part of a concatenation is the first hit of the whole. */
  lemma FirstSatisfyingAppend(a: seq<Option<InterfaceAddress>>, b: seq<Option<InterfaceAddress>>, p: InterfaceAddress -> bool, k: int)
    ensures FirstSatisfyingAt(a, p, k) ==> FirstSatisfyingAt(a + b, p, k)
    ensures NoneSatisfying(a, p) && FirstSatisfyingAt(b, p, k) ==> FirstSatisfyingAt(a + b, p, |a| + k)
  {
    if FirstSatisfyingAt(a, p, k) {
      assert (a + b)[k] == a[k];
      forall j | 0 <= j < k && (a + b)[j].Some?
        ensures !p((a + b)[j].value)
      {
        assert (a + b)[j] == a[j];
      }
    }
    if NoneSatisfying(a, p) && FirstSatisfyingAt(b, p, k) {
      forall j | 0 <= j < |a| + k && (a + b)[j].Some?
        ensures !p((a + b)[j].value)
      {
        if j >= |a| {
          assert (a + b)[j] == b[j - |a|];
        }
      }
    }
  }

  /** The inner loop of the lookups: the first non-null interface address satisfying `p`. */
  function FirstIn(ias: seq<Option<InterfaceAddress>>, p: InterfaceAddress -> bool): (r: Option<InterfaceAddress>)
    ensures r.None? <==> NoneSatisfying(ias, p)
    ensures r.Some? ==> exists k :: FirstSatisfyingAt(ias, p, k) && ias[k] == r
  {
    if |ias| == 0 then None
    else if ias[0].Some? && p(ias[0].value) then
      assert FirstSatisfyingAt(ias, p, 0);
      ias[0]
    else
      var r := FirstIn(ias[1..], p);
      assert r.Some? ==> exists k :: FirstSatisfyingAt(ias, p, k) && ias[k] == r by {
        if r.Some? {
          var k :| FirstSatisfyingAt(ias[1..], p, k) && ias[1..][k] == r;
          assert FirstSatisfyingAt(ias, p, k + 1);
        }
      }
      r
  }

  /**
   * The two nested loops of the lookups: interfaces in order, each interface's
   * addresses in order, nulls skipped, first hit returned.
   */
  function FirstAcross(ifaces: seq<NetworkInterface>, p: InterfaceAddress -> bool): (r: Option<InterfaceAddress>)
    ensures r.None? <==> NoneSatisfying(AllInterfaceAddresses(ifaces), p)
    ensures r.Some? ==> exists k :: FirstSatisfyingAt(AllInterfaceAddresses(ifaces), p, k) && AllInterfaceAddresses(ifaces)[k] == r
  {
    if |ifaces| == 0 then None
    else
      var head := ifaces[0].interfaceAddresses;
      var rest := AllInterfaceAddresses(ifaces[1..]);
      assert AllInterfaceAddresses(ifaces) == head + rest;
      var r := FirstIn(head, p);
      if r.Some? then
        FoundInHead(head, rest, p, r);
        r
      else
        var r' := FirstAcross(ifaces[1..], p);
        FoundInRest(head, rest, p, r');
        r'
  }

  /** A first hit in the first part is the first hit of the concatenation. */
  lemma FoundInHead(head: seq<Option<InterfaceAddress>>, rest: seq<Option<InterfaceAddress>>, p: InterfaceAddress -> bool,
                    r: Option<InterfaceAddress>)
    requires r.Some? && exists k :: FirstSatisfyingAt(head, p, k) && head[k] == r
    ensures !NoneSatisfying(head + rest, p)
    ensures exists k :: FirstSatisfyingAt(head + rest, p, k) && (head + rest)[k] == r
  {
    var k :| FirstSatisfyingAt(head, p, k) && head[k] == r;
    FirstSatisfyingAppend(head, rest, p, k);
    assert (head + rest)[k] == head[k];
  }

  /** With no hit in the first part, the concatenation's hit is the second part's. */
  lemma FoundInRest(head: seq<Option<InterfaceAddress>>, rest: seq<Option<InterfaceAddress>>, p: InterfaceAddress -> bool,
                    r: Option<InterfaceAddress>)
    requires NoneSatisfying(head, p)
    requires r.None? <==> NoneSatisfying(rest, p)
    requires r.Some? ==> exists k :: FirstSatisfyingAt(rest, p, k) && rest[k] == r
    ensures r.None? <==> NoneSatisfying(head + rest, p)
    ensures r.Some? ==> exists k :: FirstSatisfyingAt(head + rest, p, k) && (head + rest)[k] == r
  {
    NoneSatisfyingAppend(head, rest, p);
    if r.Some? {
      var k :| FirstSatisfyingAt(rest, p, k) && rest[k] == r;
      FirstSatisfyingAppend(head, rest, p, k);
      assert (head + rest)[|head| + k] == rest[k];
    }
  }

  /** The test of lines 201 and 215: a non-null interface address bound to `a`. */
  function HasAddress(a: InetAddress): InterfaceAddress -> bool {
    (ia: InterfaceAddress) => ia.address == a
  }

  /** The test of lines 267-275: a current bind address whose subnet contains `remote`. */
  function BindAddressCovering(bindAddresses: seq<InetAddress>, remote: InetAddress): InterfaceAddress -> bool {
    (ia: InterfaceAddress) => ia.address in bindAddresses && IsInSubnet(Bytes(remote), Bytes(ia.address), ia.networkPrefixLength)
  }

  /**
   * `getBroadcastAddress` (lines 197-208): the broadcast address of the first
   * interface address bound to `a` (which may itself be null), or null when none is.
   */
  function GetBroadcastAddress(f: Factory, a: InetAddress): (r: Option<InetAddress>)
    ensures NoneSatisfying(AllInterfaceAddresses(f.networkInterfaces), HasAddress(a)) ==> r.None?
    ensures forall k :: FirstSatisfyingAt(AllInterfaceAddresses(f.networkInterfaces), HasAddress(a), k) ==>
              r == AllInterfaceAddresses(f.networkInterfaces)[k].value.broadcast
  {
    match FirstAcross(f.networkInterfaces, HasAddress(a))
    case Some(ia) => ia.broadcast
    case None => None
  }

  /**
   * `getAddressNetworkPrefixLength` (lines 210-224): the prefix length of the first
   * interface address bound to `a` when it lies strictly between 0 and 32; a first
   * match with any other length ends the search with no answer.
   */
  function GetAddressNetworkPrefixLength(f: Factory, a: InetAddress): (r: Option<Short>)
    ensures r.Some? ==> 0 < r.value < 32
    ensures NoneSatisfying(AllInterfaceAddresses(f.networkInterfaces), HasAddress(a)) ==> r.None?
    ensures forall k :: FirstSatisfyingAt(AllInterfaceAddresses(f.networkInterfaces), HasAddress(a), k) ==>
              var prefix := AllInterfaceAddresses(f.networkInterfaces)[k].value.networkPrefixLength;
              r == if 0 < prefix < 32 then Some(prefix) else None
  {
    match FirstAcross(f.networkInterfaces, HasAddress(a))
    case Some(ia) => if ia.networkPrefixLength > 0 && ia.networkPrefixLength < 32 then Some(ia.networkPrefixLength) else None
    case None => None
  }

  /**
   * `getBindAddressInSubnetOf` (lines 261-284): the address of the first non-null
   * interface address that is a current bind address and whose subnet, with the
   * prefix length exactly as the platform reported it, contains `remote`.
   */
  function GetBindAddressInSubnetOf(f: Factory, remote: InetAddress): (r: Option<InetAddress>)
    ensures r.Some? ==> r.value in f.bindAddresses
    ensures NoneSatisfying(AllInterfaceAddresses(f.networkInterfaces), BindAddressCovering(f.bindAddresses, remote)) ==> r.None?
    ensures forall k :: FirstSatisfyingAt(AllInterfaceAddresses(f.networkInterfaces), BindAddressCovering(f.bindAddresses, remote), k) ==>
              r == Some(AllInterfaceAddresses(f.networkInterfaces)[k].value.address)
  {
    match FirstAcross(f.networkInterfaces, BindAddressCovering(f.bindAddresses, remote))
    case Some(ia) => Some(ia.address)
    case None => None
  }

  /**
   * `getLocalAddress` (lines 226-251): only the subnet search; the interface and the
   * IPv6 flag are ignored. The answer is the address of the first interface entry
   * whose bind address places `remote` in its subnet, and there is none only when
   * no entry does.
   */
  function GetLocalAddress(f: Factory, iface: NetworkInterface, isIPv6: bool, remote: InetAddress): (r: Option<InetAddress>)
    ensures r.Some? ==> r.value in f.bindAddresses
    ensures r.Some? ==> exists k :: 0 <= k < |AllInterfaceAddresses(f.networkInterfaces)|
                          && AllInterfaceAddresses(f.networkInterfaces)[k].Some?
                          && AllInterfaceAddresses(f.networkInterfaces)[k].value.address == r.value
                          && IsInSubnet(Bytes(remote), Bytes(r.value), AllInterfaceAddresses(f.networkInterfaces)[k].value.networkPrefixLength)
    ensures NoneSatisfying(AllInterfaceAddresses(f.networkInterfaces), BindAddressCovering(f.bindAddresses, remote)) ==> r.None?
    ensures forall k :: FirstSatisfyingAt(AllInterfaceAddresses(f.networkInterfaces), BindAddressCovering(f.bindAddresses, remote), k) ==>
              r == Some(AllInterfaceAddresses(f.networkInterfaces)[k].value.address)
  {
    var r := GetBindAddressInSubnetOf(f, remote);
    var all := AllInterfaceAddresses(f.networkInterfaces);
    assert r.Some? ==> exists k :: 0 <= k < |all| && all[k].Some? && all[k].value.address == r.value
                                   && IsInSubnet(Bytes(remote), Bytes(r.value), all[k].value.networkPrefixLength) by {
      if r.Some? {
        var k :| FirstSatisfyingAt(all, BindAddressCovering(f.bindAddresses, remote), k);
        assert all[k].value.address == r.value;
      }
    }
    r
  }

  /** The interface and the IPv6 flag never change the local address found. */
  lemma LocalAddressIgnoresInterface(f: Factory, i1: NetworkInterface, v1: bool, i2: NetworkInterface, v2: bool, remote: InetAddress)
    ensures GetLocalAddress(f, i1, v1, remote) == GetLocalAddress(f, i2, v2, remote)
  {
  }

  // ---------------------------------------------------------------------------
  // Removal through the iterators
  // ---------------------------------------------------------------------------

  /** `getNetworkInterfaces()` iterator removal (lines 149-159): drops interface `i` only. */
  function RemoveInterfaceAt(f: Factory, i: nat): (r: Factory)
    requires i < |f.networkInterfaces|
    ensures |r.networkInterfaces| == |f.networkInterfaces| - 1
    ensures forall j :: 0 <= j < i ==> r.networkInterfaces[j] == f.networkInterfaces[j]
    ensures forall j :: i <= j < |r.networkInterfaces| ==> r.networkInterfaces[j] == f.networkInterfaces[j + 1]
    ensures r.bindAddresses == f.bindAddresses
  {
    f.(networkInterfaces := f.networkInterfaces[..i] + f.networkInterfaces[i + 1..])
  }

  /** `getBindAddresses()` iterator removal (lines 161-171): drops bind address `i` only. */
  function RemoveBindAddressAt(f: Factory, i: nat): (r: Factory)
    requires i < |f.bindAddresses|
    ensures |r.bindAddresses| == |f.bindAddresses| - 1
    ensures forall j :: 0 <= j < i ==> r.bindAddresses[j] == f.bindAddresses[j]
    ensures forall j :: i <= j < |r.bindAddresses| ==> r.bindAddresses[j] == f.bindAddresses[j + 1]
    ensures r.networkInterfaces == f.networkInterfaces
  {
    f.(bindAddresses := f.bindAddresses[..i] + f.bindAddresses[i + 1..])
  }

  /**
   * Removing an interface through its iterator leaves that interface's bind
   * addresses behind, so the snapshot invariant does not survive it.
   */
  lemma RemovingInterfaceKeepsItsAddresses()
    ensures var eth0 := NetworkInterface("eth0", None, true, false, true, [Some(Inet4([10, 0, 0, 1]))], []);
            var f := Factory({}, {}, [eth0], [Inet4([10, 0, 0, 1])], 0, 1900);
            WellFormed(f) && !WellFormed(RemoveInterfaceAt(f, 0))
  {
    var eth0 := NetworkInterface("eth0", None, true, false, true, [Some(Inet4([10, 0, 0, 1]))], []);
    var f := Factory({}, {}, [eth0], [Inet4([10, 0, 0, 1])], 0, 1900);
    assert UsableAddresses(eth0.inetAddresses, {}) == [Inet4([10, 0, 0, 1])] by {
      assert eth0.inetAddresses[..0] == [];
    }
    assert AllUsableAddresses([eth0], {}) == [Inet4([10, 0, 0, 1])] by {
      assert [eth0][..0] == [];
    }
  }
}
