/** The peer table of src/DeviceDiscovery.py: presence beacons heard on the
    discovery port record `ip -> (name, last seen)`, entries older than a
    timeout are pruned, and the survivors are listed as (ip, name) pairs.
    Time is an integer parameter, the local address is a parameter, and a
    beacon arrives already decoded (or as the error its decoding raised). */
module Discovery {
  const DefaultServicePort: int := 65432
  const DefaultDiscoveryPort: int := 65433
  /** `_prune_old_devices`'s default timeout, in seconds. */
  const PruneTimeout: int := 30

  /** What the table holds for one address: the advertised name and when
      its last beacon was handled. */
  datatype Peer = Peer(name: string, lastSeen: int)

  /** One pass of the listener loop, as `recvfrom` and `pickle.loads` leave
      it: a beacon decoded into a name from address `ip`, handled at time
      `at`; a payload whose decoding raised PickleError or KeyError; or any
      other exception, which ends the listener. */
  datatype Datagram =
    | Beacon(ip: string, name: string, at: int)
    | Malformed
    | Fault

  /** The table after a beacon from `ip` is handled with `localIp` as this
      machine's address: the sender's entry becomes (name, now), replacing
      any earlier one, and nothing else changes; the machine's own beacons
      leave the table as it was. */
  function Observe(devices: map<string, Peer>, ip: string, name: string, now: int, localIp: string)
    : (r: map<string, Peer>)
    ensures ip == localIp ==> r == devices
    ensures ip != localIp ==> ip in r && r[ip] == Peer(name, now)
    ensures forall other :: other != ip ==> (other in r <==> other in devices)
    ensures forall other :: other != ip && other in r ==> r[other] == devices[other]
  {
    if ip != localIp then devices[ip := Peer(name, now)] else devices
  }

  /** The table after the listener handles `events` in order: beacons are
      observed, malformed payloads are skipped, and the first other error
      ends the loop with everything after it unheard. The machine's own
      entry, if any, is left exactly as it was. */
  function Replay(devices: map<string, Peer>, events: seq<Datagram>, localIp: string)
    : (r: map<string, Peer>)
    ensures localIp in r <==> localIp in devices
    ensures localIp in devices ==> r[localIp] == devices[localIp]
    decreases |events|
  {
    if events == [] then devices
    else match events[0]
      case Fault => devices
      case Malformed => Replay(devices, events[1..], localIp)
      case Beacon(ip, name, at) => Replay(Observe(devices, ip, name, at, localIp), events[1..], localIp)
  }

  predicate HasFault(events: seq<Datagram>) {
    exists i :: 0 <= i < |events| && events[i].Fault?
  }

  /** The listener never removes an entry. */
  lemma {:induction false} ReplayKeepsKeys(devices: map<string, Peer>, events: seq<Datagram>, localIp: string)
    ensures devices.Keys <= Replay(devices, events, localIp).Keys
    decreases |events|
  {
    if events != [] {
      match events[0]
      case Fault =>
      case Malformed => ReplayKeepsKeys(devices, events[1..], localIp);
      case Beacon(ip, name, at) =>
        ReplayKeepsKeys(Observe(devices, ip, name, at, localIp), events[1..], localIp);
    }
  }

  /** The machine never enters itself into its own table: an address that
      is not in the table before listening is in it afterwards only if a
      beacon came from it, and never when it is the local address. */
  lemma {:induction false} ReplayNewKeys(devices: map<string, Peer>, events: seq<Datagram>, localIp: string, ip: string)
    requires ip !in devices
    requires ip in Replay(devices, events, localIp)
    ensures ip != localIp
    ensures exists i :: 0 <= i < |events| && events[i].Beacon? && events[i].ip == ip
    decreases |events|
  {
    match events[0]
    case Fault =>
    case Malformed =>
      ReplayNewKeys(devices, events[1..], localIp, ip);
      var i :| 0 <= i < |events[1..]| && events[1..][i].Beacon? && events[1..][i].ip == ip;
      assert events[i + 1] == events[1..][i];
    case Beacon(from, name, at) =>
      var next := Observe(devices, from, name, at, localIp);
      if ip in next {
        assert ip == from && from != localIp;
        assert events[0].Beacon? && events[0].ip == ip;
      } else {
        ReplayNewKeys(next, events[1..], localIp, ip);
        var i :| 0 <= i < |events[1..]| && events[1..][i].Beacon? && events[1..][i].ip == ip;
        assert events[i + 1] == events[1..][i];
      }
  }

  /** Malformed payloads are skipped: removing one from before the first
      fatal error does not change the table. */
  lemma {:induction false} ReplaySkipsMalformed(devices: map<string, Peer>, pre: seq<Datagram>, post: seq<Datagram>,
                                                localIp: string)
    requires !HasFault(pre)
    ensures Replay(devices, pre + [Malformed] + post, localIp) == Replay(devices, pre + post, localIp)
    decreases |pre|
  {
    if pre == [] {
      assert ([] + [Malformed] + post)[1..] == post;
      assert [] + post == post;
    } else {
      assert (pre + [Malformed] + post)[1..] == pre[1..] + [Malformed] + post;
      assert (pre + post)[1..] == pre[1..] + post;
      assert !HasFault(pre[1..]) by {
        forall i | 0 <= i < |pre[1..]| ensures !pre[1..][i].Fault? {
          assert pre[1..][i] == pre[i + 1];
        }
      }
      assert !pre[0].Fault?;
      match pre[0]
      case Malformed => ReplaySkipsMalformed(devices, pre[1..], post, localIp);
      case Beacon(ip, name, at) =>
        ReplaySkipsMalformed(Observe(devices, ip, name, at, localIp), pre[1..], post, localIp);
    }
  }

  /** Any other error ends the listener: nothing after it is heard. */
  lemma {:induction false} ReplayStopsAtFault(devices: map<string, Peer>, pre: seq<Datagram>, post: seq<Datagram>,
                                              localIp: string)
    requires !HasFault(pre)
    ensures Replay(devices, pre + [Fault] + post, localIp) == Replay(devices, pre, localIp)
    decreases |pre|
  {
    if pre == [] {
      assert (pre + [Fault] + post)[0] == Fault;
    } else {
      assert (pre + [Fault] + post)[1..] == pre[1..] + [Fault] + post;
      assert !HasFault(pre[1..]) by {
        forall i | 0 <= i < |pre[1..]| ensures !pre[1..][i].Fault? {
          assert pre[1..][i] == pre[i + 1];
        }
      }
      assert !pre[0].Fault?;
      match pre[0]
      case Malformed => ReplayStopsAtFault(devices, pre[1..], post, localIp);
      case Beacon(ip, name, at) =>
        ReplayStopsAtFault(Observe(devices, ip, name, at, localIp), pre[1..], post, localIp);
    }
  }

  /** `current_time - last_seen > timeout`: the entry is too old to keep.
      With a non-negative timeout, only an entry last seen before `now`
      can be. */
  function Expired(peer: Peer, now: int, timeout: int): (r: bool)
    ensures r && timeout >= 0 ==> peer.lastSeen < now
  {
    now - peer.lastSeen > timeout
  }

  /** The table after `_prune_old_devices(timeout)` at time `now`: exactly
      the entries that have not expired, unchanged. */
  function Pruned(devices: map<string, Peer>, now: int, timeout: int): (r: map<string, Peer>)
    ensures forall ip :: ip in r <==> ip in devices && !Expired(devices[ip], now, timeout)
    ensures forall ip :: ip in r ==> r[ip] == devices[ip]
  {
    map ip | ip in devices && !Expired(devices[ip], now, timeout) :: devices[ip]
  }

  /** Pruning twice at the same time prunes nothing more. */
  lemma PruneIdempotent(devices: map<string, Peer>, now: int, timeout: int)
    ensures Pruned(Pruned(devices, now, timeout), now, timeout) == Pruned(devices, now, timeout)
  {
    var once := Pruned(devices, now, timeout);
    assert Pruned(once, now, timeout).Keys == once.Keys;
  }

  /** Pruning never adds an address. */
  lemma PruneAddsNothing(devices: map<string, Peer>, now: int, timeout: int)
    ensures Pruned(devices, now, timeout).Keys <= devices.Keys
  {
  }

  /** The comparison is strict: with the default timeout an entry seen
      exactly 30 seconds ago stays, one seen 31 seconds ago goes. */
  lemma PruneBoundary(devices: map<string, Peer>, now: int, ip: string)
    requires ip in devices
    ensures devices[ip].lastSeen == now - 30 ==> ip in Pruned(devices, now, PruneTimeout)
    ensures devices[ip].lastSeen == now - 31 ==> ip !in Pruned(devices, now, PruneTimeout)
  {
  }

  /** `list` names every address of `devices` exactly once, each with its
      stored name. */
  predicate ListsDevices(list: seq<(string, string)>, devices: map<string, Peer>) {
    && (forall j :: 0 <= j < |list| ==> list[j].0 in devices && list[j].1 == devices[list[j].0].name)
    && (forall ip :: ip in devices ==> exists j :: 0 <= j < |list| && list[j].0 == ip)
    && (forall j, k :: 0 <= j < k < |list| ==> list[j].0 != list[k].0)
  }

  /** With no address repeated, the listing is as long as the table. */
  lemma {:induction false} ListingSize(list: seq<(string, string)>, devices: map<string, Peer>)
    requires ListsDevices(list, devices)
    ensures |list| == |devices|
  {
    var ips := set j | 0 <= j < |list| :: list[j].0;
    IpsCount(list);
    forall ip | ip in devices ensures ip in ips {
      var j :| 0 <= j < |list| && list[j].0 == ip;
    }
    assert ips == devices.Keys;
  }

  lemma {:induction false} IpsCount(list: seq<(string, string)>)
    requires forall j, k :: 0 <= j < k < |list| ==> list[j].0 != list[k].0
    ensures |set j | 0 <= j < |list| :: list[j].0| == |list|
    decreases |list|
  {
    if list != [] {
      var init := list[..|list| - 1];
      IpsCount(init);
      var last := list[|list| - 1].0;
      var a := set j | 0 <= j < |init| :: init[j].0;
      var b := set j | 0 <= j < |list| :: list[j].0;
      assert b == a + {last} by {
        forall ip | ip in b ensures ip in a + {last} {
          var j :| 0 <= j < |list| && list[j].0 == ip;
          if j < |init| { assert init[j] == list[j]; }
        }
        forall ip | ip in a ensures ip in b {
          var j :| 0 <= j < |init| && init[j].0 == ip;
          assert list[j] == init[j];
        }
      }
      forall j | 0 <= j < |init| ensures init[j].0 != last {
        assert init[j] == list[j];
      }
    }
  }

  /** The discovery service: its table of peers and the `running` flag the
      listener and broadcaster loops test. */
  class DeviceDiscovery {
    const servicePort: int
    const discoveryPort: int
    const deviceName: string
    var devices: map<string, Peer>
    var running: bool
    var socketClosed: bool

    /** `DeviceDiscovery(service_port, discovery_port)`: an empty table, not
        running, with an open broadcast socket; `deviceName` is the host
        name. */
    constructor (servicePort: int, discoveryPort: int, deviceName: string)
      ensures this.servicePort == servicePort && this.discoveryPort == discoveryPort
      ensures this.deviceName == deviceName
      ensures devices == map[] && !running && !socketClosed
    {
      this.servicePort := servicePort;
      this.discoveryPort := discoveryPort;
      this.deviceName := deviceName;
      devices := map[];
      running := false;
      socketClosed := false;
    }

    /** `start_discovery`: sets the flag both loops run on (the threads that
        run them are not modelled). */
    method StartDiscovery()
      modifies this`running
      ensures running
    {
      running := true;
    }

    /** `stop_discovery`: clears the flag and closes the broadcast socket. */
    method StopDiscovery()
      modifies this`running, this`socketClosed
      ensures !running && socketClosed
    {
      running := false;
      socketClosed := true;
    }

    /** One beacon handled by the listener (`self.devices[ip] = (name,
        time.time())` unless it is the local address). */
    method HandleBeacon(ip: string, name: string, now: int, localIp: string)
      modifies this`devices
      ensures ip != localIp ==> devices == old(devices)[ip := Peer(name, now)]
      ensures ip == localIp ==> devices == old(devices)
    {
      if ip != localIp {
        devices := devices[ip := Peer(name, now)];
      }
    }

    /** `_listen_for_devices` over the datagrams that arrive while it runs:
        the table ends as Replay says when the service is running and is
        untouched otherwise; the loop stops early exactly when some datagram
        raised an error other than a decoding error. */
    method ListenForDevices(events: seq<Datagram>, localIp: string) returns (faulted: bool)
      modifies this`devices
      ensures running ==> devices == Replay(old(devices), events, localIp)
      ensures !running ==> devices == old(devices)
      ensures faulted <==> running && HasFault(events)
    {
      faulted := false;
      var i := 0;
      while running && i < |events|
        invariant 0 <= i <= |events|
        invariant running ==> Replay(old(devices), events, localIp) == Replay(devices, events[i..], localIp)
        invariant !running ==> devices == old(devices) && i == 0
        invariant forall j :: 0 <= j < i ==> !events[j].Fault?
        decreases |events| - i
      {
        assert events[i..][1..] == events[i + 1..];
        match events[i] {
          case Beacon(ip, name, at) =>
            HandleBeacon(ip, name, at, localIp);
          case Malformed =>
          case Fault =>
            assert events[i..][0].Fault?;
            return true;
        }
        i := i + 1;
      }
    }

    /** `_prune_old_devices(timeout)` at time `now`: first collect the
        expired addresses, then delete each of them. */
    method PruneOldDevices(now: int, timeout: int)
      modifies this`devices
      ensures devices == Pruned(old(devices), now, timeout)
    {
      var expired: seq<string> := [];
      var unseen := devices.Keys;
      while unseen != {}
        invariant unseen <= devices.Keys
        invariant forall ip :: ip in expired <==> ip in devices && ip !in unseen && Expired(devices[ip], now, timeout)
        decreases |unseen|
      {
        var ip :| ip in unseen;
        if now - devices[ip].lastSeen > timeout {
          expired := expired + [ip];
        }
        unseen := unseen - {ip};
      }
      ghost var before := devices;
      var i := 0;
      while i < |expired|
        invariant 0 <= i <= |expired|
        invariant devices == map ip | ip in before && ip !in expired[..i] :: before[ip]
        decreases |expired| - i
      {
        assert expired[..i + 1] == expired[..i] + [expired[i]];
        devices := devices - {expired[i]};
        i := i + 1;
      }
      assert expired[..i] == expired;
    }

    /** `get_available_devices()` at time `now`: prune with the default
        timeout, then list every remaining address once with its name. */
    method GetAvailableDevices(now: int) returns (list: seq<(string, string)>)
      modifies this`devices
      ensures devices == Pruned(old(devices), now, PruneTimeout)
      ensures ListsDevices(list, devices)
    {
      PruneOldDevices(now, PruneTimeout);
      list := [];
      var unseen := devices.Keys;
      while unseen != {}
        invariant unseen <= devices.Keys
        invariant forall j :: 0 <= j < |list| ==>
          list[j].0 in devices && list[j].0 !in unseen && list[j].1 == devices[list[j].0].name
        invariant forall ip :: ip in devices && ip !in unseen ==> exists j :: 0 <= j < |list| && list[j].0 == ip
        invariant forall j, k :: 0 <= j < k < |list| ==> list[j].0 != list[k].0
        decreases |unseen|
      {
        var ip :| ip in unseen;
        ghost var previous := list;
        list := list + [(ip, devices[ip].name)];
        unseen := unseen - {ip};
        forall x | x in devices && x !in unseen ensures exists j :: 0 <= j < |list| && list[j].0 == x {
          if x == ip {
            assert list[|list| - 1].0 == x;
          } else {
            var j :| 0 <= j < |previous| && previous[j].0 == x;
            assert list[j] == previous[j];
          }
        }
      }
    }
  }
}
