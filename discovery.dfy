/** Service discovery over Avahi (src/discovery.cpp, include/ircom/discovery.h):
    the publisher's state machine and the browser's list of resolved services.
    Avahi itself is not modelled: what it reports (client and entry-group
    states, browser and resolver events, the return codes of its calls) comes
    in as parameters, and each callback runs as one step with the poll lock
    held. A condition-variable wait becomes the precondition of the step that
    follows it. */
module Discovery {
  import opened Wrappers

  /** DNS-SD service type of the ircom service, "_<service>._<proto>" as in
      section 7 of RFC 6763. */
  const SERVICE_TYPE: string := "_ircom._tcp"
  /** SERVICE_PORT from include/ircom/config.h. */
  const SERVICE_PORT: nat := 40001
  /** AVAHI_ERR_COLLISION from Avahi's error codes. */
  const AVAHI_ERR_COLLISION: int := -8

  /** Address protocols Avahi reports; resolution is restricted to INET. */
  datatype Protocol = Inet | Inet6 | Unspec

  /** Why a callback raised an error out of the event loop. All but
      ResolverNotCreated also tell the loop to quit first. */
  datatype Fatal = RemoteCollision | EntryGroupFailure | ClientDown | BrowserDown | ResolverNotCreated

  // ---------------------------------------------------------------------------
  // Publisher

  /** internal::publisher_state */
  datatype PublisherState = Starting | CanPublish | PublishPending | Published

  /** AvahiClientState as far as the callbacks tell them apart. */
  datatype ClientState = ClientRunning | ClientCollision | ClientRegistering | ClientFailure | ClientConnecting

  /** AvahiEntryGroupState */
  datatype EntryGroupState = GroupUncommited | GroupRegistering | GroupEstablished | GroupCollision | GroupFailure

  /** The errors publish_service_unlocked raises. */
  datatype PublishError =
    | GroupNotCreated
    | GroupNotEmpty
    | LocalCollision
    | AddFailed(code: int)
    | CommitFailed(code: int)

  /** How a successful publish() goes on: it returns at once, or it waits
      until the state becomes Published. */
  datatype PublishWait = Returned | AwaitPublished

  /** publish_service_unlocked: create the entry group if there is none, refuse
      a group that is not empty, add the service (a local name collision is
      told apart from other negative codes) and commit. */
  function Register(hasGroup: bool, groupEmpty: bool, groupCreated: bool, addRet: int, commitRet: int): (r: Result<(), PublishError>)
    ensures r.Success? <==> (hasGroup || groupCreated) && (!hasGroup || groupEmpty) && addRet >= 0 && commitRet >= 0
    ensures r == Failure(GroupNotEmpty) <==> hasGroup && !groupEmpty
    ensures r == Failure(LocalCollision) <==> (hasGroup || groupCreated) && (!hasGroup || groupEmpty) && addRet == AVAHI_ERR_COLLISION
    ensures r.Failure? && r.error.CommitFailed? ==> addRet >= 0 && r.error.code == commitRet < 0
  {
    if !hasGroup && !groupCreated then Failure(GroupNotCreated)
    else if hasGroup && !groupEmpty then Failure(GroupNotEmpty)
    else if addRet == AVAHI_ERR_COLLISION then Failure(LocalCollision)
    else if addRet < 0 then Failure(AddFailed(addRet))
    else if commitRet < 0 then Failure(CommitFailed(commitRet))
    else Success(())
  }

  class Publisher {
    /** state_ */
    var state: PublisherState
    /** entry_group_ != nullptr */
    var hasEntryGroup: bool
    /** avahi_entry_group_is_empty(entry_group_) */
    var groupEmpty: bool
    /** The threaded poll has not been told to quit. */
    var pollRunning: bool
    /** Number of services added to the entry group. */
    ghost var registrations: nat

    /** Only a publisher with an entry group can be waiting for it or have
        published through it. */
    ghost predicate Valid()
      reads this
    {
      && ((state == PublishPending || state == Published) ==> hasEntryGroup)
      && (!hasEntryGroup ==> groupEmpty)
    }

    /** The publisher after its constructor: STARTING, no entry group. */
    constructor ()
      ensures Valid() && state == Starting && !hasEntryGroup && pollRunning && registrations == 0
    {
      state := Starting;
      hasEntryGroup := false;
      groupEmpty := true;
      pollRunning := true;
      registrations := 0;
    }

    /** publish() (src/discovery.cpp:49-74), once its first wait is over. In
        CAN_PUBLISH it registers the service and moves to PUBLISH_PENDING; in
        PUBLISH_PENDING it leaves the registering to the call already doing it;
        in PUBLISHED it returns at once. A failed registration changes no state. */
    method Publish(groupCreated: bool, addRet: int, commitRet: int) returns (r: Result<PublishWait, PublishError>)
      requires Valid()
      requires state == CanPublish || state == PublishPending || state == Published
      modifies this
      ensures Valid() && pollRunning == old(pollRunning)
      ensures old(state) == Published ==> r == Success(Returned)
      ensures old(state) == PublishPending ==> r == Success(AwaitPublished)
      ensures old(state) != CanPublish ==>
                state == old(state) && hasEntryGroup == old(hasEntryGroup) && groupEmpty == old(groupEmpty)
                && registrations == old(registrations)
      ensures old(state) == CanPublish ==>
                var reg := Register(old(hasEntryGroup), old(groupEmpty), groupCreated, addRet, commitRet);
                && (reg.Success? ==> r == Success(AwaitPublished) && state == PublishPending)
                && (reg.Failure? ==> r == Failure(reg.error) && state == CanPublish)
                && hasEntryGroup == (old(hasEntryGroup) || groupCreated)
                && (registrations == old(registrations) + 1 <==> reg.Success? || reg.error.CommitFailed?)
                && registrations <= old(registrations) + 1
                && ((reg.Success? || reg.error.CommitFailed?) ==> !groupEmpty)
                && (!(reg.Success? || reg.error.CommitFailed?) ==> groupEmpty == old(groupEmpty))
    {
      match state
      case Published =>
        return Success(Returned);
      case PublishPending =>
        return Success(AwaitPublished);
      case CanPublish =>
        var reg := Register(hasEntryGroup, groupEmpty, groupCreated, addRet, commitRet);
        if !hasEntryGroup {
          if !groupCreated {
            return Failure(GroupNotCreated);
          }
          hasEntryGroup := true;
          groupEmpty := true;
        }
        if !groupEmpty {
          return Failure(GroupNotEmpty);
        }
        if addRet == AVAHI_ERR_COLLISION || addRet < 0 {
          return Failure(reg.error);
        }
        groupEmpty := false;
        registrations := registrations + 1;
        if commitRet < 0 {
          return Failure(reg.error);
        }
        state := PublishPending;
        return Success(AwaitPublished);
    }

    /** reset() (src/discovery.cpp:76-82): with an entry group, empty it and
        allow publishing again; without one, nothing happens. */
    method Reset()
      requires Valid()
      modifies this
      ensures Valid()
      ensures old(hasEntryGroup) ==> state == CanPublish && groupEmpty
      ensures !old(hasEntryGroup) ==> state == old(state) && groupEmpty == old(groupEmpty)
      ensures hasEntryGroup == old(hasEntryGroup) && pollRunning == old(pollRunning)
      ensures registrations == old(registrations)
    {
      if hasEntryGroup {
        groupEmpty := true;
        state := CanPublish;
      }
    }

    /** entry_group_callback (src/discovery.cpp:84-113): ESTABLISHED publishes;
        a collision or a failure quits the event loop and is fatal; any other
        state changes nothing. Avahi only calls it for an existing group. */
    method EntryGroupCallback(gs: EntryGroupState) returns (fatal: Option<Fatal>)
      requires Valid() && hasEntryGroup
      modifies this
      ensures Valid()
      ensures gs == GroupEstablished ==> state == Published && fatal == None && pollRunning == old(pollRunning)
      ensures gs == GroupCollision ==> fatal == Some(RemoteCollision) && !pollRunning && state == old(state)
      ensures gs == GroupFailure ==> fatal == Some(EntryGroupFailure) && !pollRunning && state == old(state)
      ensures gs.GroupUncommited? || gs.GroupRegistering? ==>
                fatal == None && state == old(state) && pollRunning == old(pollRunning)
      ensures hasEntryGroup == old(hasEntryGroup) && groupEmpty == old(groupEmpty)
      ensures registrations == old(registrations)
    {
      fatal := None;
      match gs
      case GroupEstablished =>
        state := Published;
      case GroupCollision =>
        pollRunning := false;
        fatal := Some(RemoteCollision);
      case GroupFailure =>
        pollRunning := false;
        fatal := Some(EntryGroupFailure);
      case _ =>
    }

    /** client_callback (src/discovery.cpp:115-143): every state but RUNNING
        first drops back to STARTING; RUNNING allows publishing; a collision or
        a re-registration of the host then resets the group; a failure quits
        the event loop and is fatal. */
    method ClientCallback(cs: ClientState) returns (fatal: Option<Fatal>)
      requires Valid()
      modifies this
      ensures Valid()
      ensures cs == ClientRunning ==> state == CanPublish && fatal == None
      ensures cs == ClientCollision || cs == ClientRegistering ==>
                fatal == None && state == (if old(hasEntryGroup) then CanPublish else Starting)
                && (old(hasEntryGroup) ==> groupEmpty)
      ensures cs == ClientFailure ==> state == Starting && fatal == Some(ClientDown) && !pollRunning
      ensures cs == ClientConnecting ==> state == Starting && fatal == None
      ensures cs != ClientFailure ==> pollRunning == old(pollRunning)
      ensures hasEntryGroup == old(hasEntryGroup) && registrations == old(registrations)
      ensures !(cs == ClientCollision || cs == ClientRegistering) ==> groupEmpty == old(groupEmpty)
    {
      fatal := None;
      if cs != ClientRunning {
        state := Starting;
      }
      match cs
      case ClientRunning =>
        state := CanPublish;
      case ClientCollision =>
        Reset();
      case ClientRegistering =>
        Reset();
      case ClientFailure =>
        pollRunning := false;
        fatal := Some(ClientDown);
      case ClientConnecting =>
    }
  }

  // ---------------------------------------------------------------------------
  // Browser

  /** service_info: where a service was seen and the address it resolved to. */
  datatype ServiceInfo = ServiceInfo(iface: int, domain: string, addr: string)

  /** What AVAHI_RESOLVER_FOUND reports. */
  datatype Resolved = Resolved(iface: int, protocol: Protocol, domain: string, addr: string, port: nat)

  /** The resolver the browser asks Avahi for on a NEW event: the service seen
      on iface/protocol, resolved to an INET address. */
  datatype ResolveRequest = ResolveRequest(iface: int, protocol: Protocol, name: string, domain: string, addrProtocol: Protocol)

  /** Events a service browser reports. */
  datatype BrowserEvent =
    | BrowserNew(iface: int, protocol: Protocol, name: string, serviceType: string, domain: string)
    | BrowserRemove(iface: int, protocol: Protocol, name: string, serviceType: string, domain: string)
    | BrowserFailed
    | BrowserOther

  /** A record a REMOVE event for (iface, domain) takes away. */
  predicate Matches(s: ServiceInfo, iface: int, domain: string)
  {
    s.iface == iface && s.domain == domain
  }

  /** The records of s that do not match (iface, domain), in their order. */
  function Without(s: seq<ServiceInfo>, iface: int, domain: string): seq<ServiceInfo>
  {
    if s == [] then []
    else Without(s[..|s| - 1], iface, domain) + (if Matches(s[|s| - 1], iface, domain) then [] else [s[|s| - 1]])
  }

  /** Removing from one more record removes from that record alone. */
  lemma WithoutStep(s: seq<ServiceInfo>, j: nat, iface: int, domain: string)
    requires j < |s|
    ensures Without(s[..j + 1], iface, domain)
            == Without(s[..j], iface, domain) + (if Matches(s[j], iface, domain) then [] else [s[j]])
  {
    assert s[..j + 1][..j] == s[..j];
  }

  /** One pass of the erase loop over a matching record: erasing it at the
      loop's position leaves the loop invariant for one more record. */
  lemma DropStep(orig: seq<ServiceInfo>, j: nat, s: seq<ServiceInfo>, iface: int, domain: string)
    requires j < |orig| && s == Without(orig[..j], iface, domain) + orig[j..]
    requires Matches(orig[j], iface, domain)
    ensures var i := |Without(orig[..j], iface, domain)|;
      && i == |Without(orig[..j + 1], iface, domain)| && i < |s|
      && s[..i] + s[i + 1..] == Without(orig[..j + 1], iface, domain) + orig[j + 1..]
  {
    WithoutStep(orig, j, iface, domain);
    var w := Without(orig[..j], iface, domain);
    assert s[..|w|] == w;
    assert s[|w| + 1..] == orig[j + 1..];
  }

  /** One pass of the erase loop over a record that stays: stepping past it
      leaves the loop invariant for one more record. */
  lemma KeepStep(orig: seq<ServiceInfo>, j: nat, s: seq<ServiceInfo>, iface: int, domain: string)
    requires j < |orig| && s == Without(orig[..j], iface, domain) + orig[j..]
    requires !Matches(orig[j], iface, domain)
    ensures |Without(orig[..j], iface, domain)| + 1 == |Without(orig[..j + 1], iface, domain)|
    ensures s == Without(orig[..j + 1], iface, domain) + orig[j + 1..]
  {
    WithoutStep(orig, j, iface, domain);
    var w := Without(orig[..j], iface, domain);
    assert orig[j..] == [orig[j]] + orig[j + 1..];
    assert s == (w + [orig[j]]) + orig[j + 1..];
  }

  /** Removing distributes over concatenation: what survives keeps its order. */
  lemma {:induction false} WithoutAppend(a: seq<ServiceInfo>, b: seq<ServiceInfo>, iface: int, domain: string)
    ensures Without(a + b, iface, domain) == Without(a, iface, domain) + Without(b, iface, domain)
    decreases |b|
  {
    if b == [] {
      assert a + b == a;
    } else {
      var b' := b[..|b| - 1];
      assert (a + b)[..|a + b| - 1] == a + b';
      WithoutAppend(a, b', iface, domain);
    }
  }

  /** A record survives iff it was there and does not match. */
  lemma {:induction false} WithoutMembers(s: seq<ServiceInfo>, iface: int, domain: string, x: ServiceInfo)
    ensures x in Without(s, iface, domain) <==> x in s && !Matches(x, iface, domain)
  {
    if s != [] {
      var s' := s[..|s| - 1];
      WithoutMembers(s', iface, domain, x);
      assert s == s' + [s[|s| - 1]];
    }
  }

  /** Removing twice removes nothing more. */
  lemma {:induction false} WithoutIdempotent(s: seq<ServiceInfo>, iface: int, domain: string)
    ensures Without(Without(s, iface, domain), iface, domain) == Without(s, iface, domain)
  {
    if s != [] {
      var s' := s[..|s| - 1];
      var last := s[|s| - 1];
      WithoutIdempotent(s', iface, domain);
      var tail := if Matches(last, iface, domain) then [] else [last];
      WithoutAppend(Without(s', iface, domain), tail, iface, domain);
      if !Matches(last, iface, domain) {
        assert [last][..0] == [];
      }
    }
  }

  /** With no matching record, a removal leaves the list as it is. */
  lemma {:induction false} WithoutNoMatch(s: seq<ServiceInfo>, iface: int, domain: string)
    requires forall i :: 0 <= i < |s| ==> !Matches(s[i], iface, domain)
    ensures Without(s, iface, domain) == s
  {
    if s != [] {
      WithoutNoMatch(s[..|s| - 1], iface, domain);
    }
  }

  class Browser {
    /** target_service_name_ */
    const target: string
    /** services_ */
    var services: seq<ServiceInfo>
    /** is_closed_ */
    var closed: bool
    /** The threaded poll has not been stopped or told to quit. */
    var pollRunning: bool

    /** The browser after its constructor: no services, open, polling. */
    constructor (targetName: string)
      ensures target == targetName && services == [] && !closed && pollRunning
    {
      target := targetName;
      services := [];
      closed := false;
      pollRunning := true;
    }

    /** The filter NEW and REMOVE share: the target's name and the ircom type. */
    predicate IsTarget(name: string, serviceType: string)
      reads this
    {
      name == target && serviceType == SERVICE_TYPE
    }

    /** service_browser_callback on NEW (src/discovery.cpp:319-337): for the
        target service a resolver for an INET address is started; anything
        else is ignored. Failing to create the resolver is fatal. */
    method OnBrowserNew(iface: int, protocol: Protocol, name: string, serviceType: string, domain: string, resolverCreated: bool)
      returns (r: Result<Option<ResolveRequest>, Fatal>)
      ensures !IsTarget(name, serviceType) ==> r == Success(None)
      ensures IsTarget(name, serviceType) && resolverCreated ==>
                r == Success(Some(ResolveRequest(iface, protocol, name, domain, Inet)))
      ensures IsTarget(name, serviceType) && !resolverCreated ==> r == Failure(ResolverNotCreated)
    {
      if !IsTarget(name, serviceType) {
        return Success(None);
      }
      if !resolverCreated {
        return Failure(ResolverNotCreated);
      }
      return Success(Some(ResolveRequest(iface, protocol, name, domain, Inet)));
    }

    /** service_resolver_callback (src/discovery.cpp:266-310): a result over
        INET on SERVICE_PORT is appended to the list; any other result, and a
        resolver failure (given as None), changes nothing. */
    method ServiceResolverCallback(found: Option<Resolved>)
      modifies this
      ensures closed == old(closed) && pollRunning == old(pollRunning)
      ensures found.Some? && found.value.protocol == Inet && found.value.port == SERVICE_PORT ==>
                services == old(services) + [ServiceInfo(found.value.iface, found.value.domain, found.value.addr)]
      ensures !(found.Some? && found.value.protocol == Inet && found.value.port == SERVICE_PORT) ==>
                services == old(services)
    {
      if found.None? {
        return;
      }
      var res := found.value;
      if res.protocol != Inet {
        return;
      }
      if res.port != SERVICE_PORT {
        return;
      }
      services := services + [ServiceInfo(res.iface, res.domain, res.addr)];
    }

    /** The erase-while-walking loop of a REMOVE event (src/discovery.cpp:344-355). */
    method RemoveMatching(iface: int, domain: string)
      modifies this`services
      ensures services == Without(old(services), iface, domain)
    {
      ghost var orig := services;
      ghost var j := 0;
      var s := services;
      var i := 0;
      while i < |s|
        invariant 0 <= j <= |orig| && i <= |s|
        invariant s == Without(orig[..j], iface, domain) + orig[j..]
        invariant i == |Without(orig[..j], iface, domain)|
        invariant |s| == i + (|orig| - j)
        decreases |s| - i
      {
        if s[i].iface == iface && s[i].domain == domain {
          DropStep(orig, j, s, iface, domain);
          s := s[..i] + s[i + 1..];
        } else {
          KeepStep(orig, j, s, iface, domain);
          i := i + 1;
        }
        j := j + 1;
      }
      assert orig[..j] == orig;
      services := s;
    }

    /** service_browser_callback (src/discovery.cpp:312-371). NEW yields the
        resolver to start; REMOVE of the target over INET drops every record
        with the same interface and domain and keeps the others in order; a
        browser failure quits the event loop and is fatal. */
    method ServiceBrowserCallback(ev: BrowserEvent, resolverCreated: bool) returns (r: Result<Option<ResolveRequest>, Fatal>)
      modifies this
      ensures closed == old(closed)
      ensures ev.BrowserNew? ==> services == old(services) && pollRunning == old(pollRunning)
      ensures ev.BrowserNew? && IsTarget(ev.name, ev.serviceType) && resolverCreated ==>
                r == Success(Some(ResolveRequest(ev.iface, ev.protocol, ev.name, ev.domain, Inet)))
      ensures ev.BrowserNew? && IsTarget(ev.name, ev.serviceType) && !resolverCreated ==>
                r == Failure(ResolverNotCreated)
      ensures ev.BrowserNew? && !IsTarget(ev.name, ev.serviceType) ==> r == Success(None)
      ensures ev.BrowserRemove? && IsTarget(ev.name, ev.serviceType) && ev.protocol == Inet ==>
                services == Without(old(services), ev.iface, ev.domain) && r == Success(None)
      ensures ev.BrowserRemove? && !(IsTarget(ev.name, ev.serviceType) && ev.protocol == Inet) ==>
                services == old(services) && r == Success(None)
      ensures ev.BrowserRemove? || ev.BrowserOther? ==> pollRunning == old(pollRunning)
      ensures ev.BrowserFailed? ==> r == Failure(BrowserDown) && !pollRunning && services == old(services)
      ensures ev.BrowserOther? ==> r == Success(None) && services == old(services)
    {
      match ev
      case BrowserNew(iface, protocol, name, serviceType, domain) =>
        r := OnBrowserNew(iface, protocol, name, serviceType, domain, resolverCreated);
      case BrowserRemove(iface, protocol, name, serviceType, domain) =>
        r := Success(None);
        if IsTarget(name, serviceType) && protocol == Inet {
          RemoveMatching(iface, domain);
        }
      case BrowserFailed =>
        pollRunning := false;
        r := Failure(BrowserDown);
      case BrowserOther =>
        r := Success(None);
    }

    /** client_callback of the browser (src/discovery.cpp:373-382): a client
        failure quits the event loop and is fatal; other states are ignored. */
    method ClientCallback(cs: ClientState) returns (fatal: Option<Fatal>)
      modifies this
      ensures services == old(services) && closed == old(closed)
      ensures cs == ClientFailure ==> fatal == Some(ClientDown) && !pollRunning
      ensures cs != ClientFailure ==> fatal == None && pollRunning == old(pollRunning)
    {
      fatal := None;
      if cs == ClientFailure {
        pollRunning := false;
        fatal := Some(ClientDown);
      }
    }

    /** has_service_unlocked() (src/discovery.cpp:384). */
    method HasService() returns (b: bool)
      ensures b <==> services != []
    {
      b := |services| > 0;
    }

    /** get_latest_service() (src/discovery.cpp:244-250), once its wait is
        over: a closed browser raises closed_exception even when it holds
        records; otherwise the most recently resolved record is returned. */
    method GetLatestService() returns (r: Result<ServiceInfo, ()>)
      requires services != [] || closed
      ensures closed <==> r.Failure?
      ensures r.Success? ==> r.value == services[|services| - 1] && r.value in services
    {
      if closed {
        return Failure(());
      }
      return Success(services[|services| - 1]);
    }

    /** close() (src/discovery.cpp:252-264): the browser becomes closed for
        good and its event loop stops; the records stay. */
    method Close()
      modifies this
      ensures closed && !pollRunning && services == old(services)
    {
      closed := true;
      pollRunning := false;
    }
  }
}
