/** `getNextAvailablePort`: the lowest host port above the base that no listed
    container maps to SSH. */
module PortAllocator {
  import opened Inventory

  const BaseSshPort: int := 2200
  /** `BASE_SSH_PORT + 1`: the first port handed out. */
  const FirstPort: int := BaseSshPort + 1

  /** `new Set(containers.map(c => c.sshPort).filter(p => p > 0))`: a port of
      0 means "no SSH mapping found" and is not a used port. */
  function UsedPorts(containers: seq<Container>): set<int>
  {
    set c | c in containers && c.sshPort > 0 :: c.sshPort as int
  }

  /** `port` is the least port at or above the first port that is not used. */
  ghost predicate IsLeastFree(port: int, used: set<int>)
  {
    && FirstPort <= port
    && port !in used
    && forall q :: FirstPort <= q < port ==> q in used
  }

  /** The largest SSH port among the containers, or 0. */
  ghost function MaxSshPort(containers: seq<Container>): (m: nat)
    ensures forall k :: 0 <= k < |containers| ==> containers[k].sshPort <= m
  {
    if containers == [] then 0
    else
      var rest := MaxSshPort(containers[1..]);
      if containers[0].sshPort > rest then containers[0].sshPort else rest
  }

  /** `getNextAvailablePort`, given the containers its listing returned. */
  method NextAvailablePort(containers: seq<Container>) returns (port: nat)
    ensures IsLeastFree(port, UsedPorts(containers))
    ensures containers == [] ==> port == FirstPort
  {
    if |containers| == 0 {
      return FirstPort;
    }
    var used := UsedPorts(containers);
    ghost var top := if MaxSshPort(containers) < FirstPort then FirstPort else MaxSshPort(containers) + 1;
    port := FirstPort;
    while port in used
      invariant FirstPort <= port <= top
      invariant forall q :: FirstPort <= q < port ==> q in used
      decreases top - port
    {
      assert port < top by {
        var k :| 0 <= k < |containers| && containers[k].sshPort > 0 && containers[k].sshPort == port;
      }
      port := port + 1;
    }
  }

  /** The least free port is unique: whatever the order in which the
      containers were listed, equal sets of used ports give the same port. */
  lemma LeastFreeUnique(p: int, q: int, used: set<int>)
    requires IsLeastFree(p, used) && IsLeastFree(q, used)
    ensures p == q
  {
  }

  /** Listing the same containers in another order, or repeating them, does
      not change the used ports. */
  lemma UsedPortsOrderFree(a: seq<Container>, b: seq<Container>)
    requires forall c :: c in a <==> c in b
    ensures UsedPorts(a) == UsedPorts(b)
  {
  }

  /** A container without an SSH mapping never affects the used ports. */
  lemma UnmappedIgnored(a: seq<Container>, c: Container, b: seq<Container>)
    requires c.sshPort == 0
    ensures UsedPorts(a + [c] + b) == UsedPorts(a + b)
  {
    assert forall x :: x in a + [c] + b <==> x in a + b || x == c;
  }

  /** Once a container holding the allocated port is listed, the next
      allocation moves strictly past that port. */
  lemma NextPortAfterCreate(containers: seq<Container>, created: Container, p: int, q: int)
    requires IsLeastFree(p, UsedPorts(containers))
    requires created.sshPort == p
    requires IsLeastFree(q, UsedPorts(containers + [created]))
    ensures q > p
  {
    assert created in containers + [created];
    forall x | x in UsedPorts(containers) ensures x in UsedPorts(containers + [created]) {
      var c :| c in containers && c.sshPort > 0 && c.sshPort == x;
      assert c in containers + [created];
    }
  }

  /** With used ports 2201 and 2203 the next port is 2202; with 2201 to 2203
      it is 2204. */
  lemma LeastFreeExamples()
    ensures IsLeastFree(2202, {2201, 2203})
    ensures IsLeastFree(2204, {2201, 2202, 2203})
    ensures IsLeastFree(2201, {})
  {
  }
}
