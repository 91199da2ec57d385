/** Looking for PCI devices (src/topology-libpci.c): every device is added below one list head, and
    the objects found there are then spread over one host bridge per upstream bus. */
module PciDiscovery {
  import opened PciFamily
  import opened PciTree

  // ---- Adding all devices ----

  ghost predicate Unlinked(c: Pci)
    reads c
  {
    c.firstChild == null && c.lastChild == null && c.prevSibling == null && c.nextSibling == null
  }

  ghost function Members(q: seq<Pci>): set<Pci> {
    set c | c in q
  }

  /** The tree of the first `n` devices, with the others still alone. */
  ghost predicate Found(root: Pci, devices: seq<Pci>, n: nat, kids: Kids)
    reads kids.Keys
  {
    && n <= |devices| && kids.Keys == Members(devices) + {root}
    && Forest(kids) && IsTree(root, Members(devices[..n]), kids)
    && (forall k :: n <= k < |devices| ==> kids[devices[k]] == [])
  }

  /** Whatever the order of the devices, the result is the tree of their family: each object is
      directly below the smallest bridge range that has its bus. */
  method AddDevices(root: Pci, devices: seq<Pci>) returns (ghost kids: Kids)
    requires Distinct(devices) && Family(root, Members(devices))
    requires Unlinked(root) && forall c :: c in devices ==> Unlinked(c)
    modifies root, devices
    ensures Forest(kids) && IsTree(root, Members(devices), kids)
    ensures kids.Keys == Members(devices) + {root}
  {
    hide Found, Forest, IsTree, Adding, After, Detached, Family, Distinct;
    kids := map c | c in Members(devices) + {root} :: [];
    NoneFound(root, devices, kids);
    var n := 0;
    while n < |devices|
      invariant n <= |devices| && Found(root, devices, n, kids)
    {
      ReadyToAdd(root, devices, n, kids);
      ghost var now := AddObject(root, devices[n], kids, root, Members(devices[..n]));
      OneFound(root, devices, n, kids, now);
      kids := now;
      n := n + 1;
    }
    AllFound(root, devices, kids);
  }

  lemma NoneFound(root: Pci, devices: seq<Pci>, kids: Kids)
    requires kids.Keys == Members(devices) + {root} && forall c :: c in kids ==> kids[c] == []
    requires Unlinked(root) && forall c :: c in devices ==> Unlinked(c)
    ensures Found(root, devices, 0, kids)
  {
    assert forall c :: c in devices ==> c in Members(devices);
  }

  lemma AllFound(root: Pci, devices: seq<Pci>, kids: Kids)
    requires Found(root, devices, |devices|, kids)
    ensures Forest(kids) && IsTree(root, Members(devices), kids) && kids.Keys == Members(devices) + {root}
  {
    assert devices[..|devices|] == devices;
  }

  lemma OneFound(root: Pci, devices: seq<Pci>, n: nat, kids: Kids, now: Kids)
    requires n < |devices| && now.Keys == kids.Keys == Members(devices) + {root} && Forest(now)
    requires IsTree(root, Members(devices[..n]) + {devices[n]}, now)
    requires forall k :: n <= k < |devices| ==> kids[devices[k]] == []
    requires forall p :: p in kids && p !in Members(devices[..n]) + {root, devices[n]} ==> now[p] == kids[p]
    requires forall k :: n < k < |devices| ==> devices[k] !in Members(devices[..n]) + {root, devices[n]}
    ensures Found(root, devices, n + 1, now)
  {
    hide Forest, IsTree;
    assert Members(devices[..n + 1]) == Members(devices[..n]) + {devices[n]};
    forall k | n + 1 <= k < |devices|
      ensures now[devices[k]] == []
    {
      assert devices[k] in Members(devices);
    }
  }

  lemma ReadyToAdd(root: Pci, devices: seq<Pci>, n: nat, kids: Kids)
    requires Distinct(devices) && Family(root, Members(devices)) && Found(root, devices, n, kids) && n < |devices|
    ensures Adding(root, Members(devices[..n]), kids, root, devices[n])
    ensures Forest(kids) && kids.Keys == Members(devices) + {root} && root in kids
    ensures forall k :: n <= k < |devices| ==> kids[devices[k]] == []
    ensures Detached(kids, devices[n]) && devices[n] in kids && devices[n] != root
    ensures forall k :: n < k < |devices| ==> devices[k] !in Members(devices[..n]) + {root, devices[n]}
  {
    hide Compatible, Sound;
    var s, o := Members(devices[..n]), devices[n];
    assert forall c :: c in devices ==> c in Members(devices);
    assert o !in devices[..n];
    assert forall k :: 0 <= k < n ==> devices[k] in devices[..n];
    forall p | p in kids
      ensures o !in kids[p]
    {
      if p in s + {root} {
        assert forall c :: c in kids[p] ==> c in Elements(kids[p]);
      } else {
        var k :| 0 <= k < |devices| && devices[k] == p;
        assert k >= n;
      }
    }
  }

  // ---- One host bridge per upstream bus ----

  predicate SameUpstream(a: PciId, b: PciId) {
    a.domain == b.domain && a.bus == b.bus
  }

  function Reach(bus: nat, c: PciId): nat {
    if c.bridge && c.subordinate > bus then c.subordinate else bus
  }

  /** The last bus behind the objects of a list, on a given bus. */
  ghost function LastBus(q: seq<Pci>, bus: nat): (r: nat)
    ensures r >= bus && forall c :: c in q && c.id.bridge ==> c.id.subordinate <= r
    ensures r == bus || exists c :: c in q && c.id.bridge && c.id.subordinate == r
  {
    if q == [] then bus else
    assert forall c :: c in q ==> c in q[..|q| - 1] || c == q[|q| - 1];
    Reach(LastBus(q[..|q| - 1], bus), q[|q| - 1].id)
  }

  /** A host bridge with its children: all on one bus, which are the buses it announces. */
  ghost predicate Hosts(h: Downstream, q: seq<Pci>) {
    && q != [] && (forall c :: c in q ==> SameUpstream(c.id, q[0].id))
    && h == Buses(q[0].id.domain, q[0].id.bus, LastBus(q, q[0].id.bus))
  }

  predicate UpstreamBefore(a: Downstream, domain: nat, bus: nat) {
    a.Buses? && (a.domain < domain || (a.domain == domain && a.secondary < bus))
  }

  ghost function AllChildren(hosts: seq<Pci>, kids: Kids): seq<Pci>
    requires forall h :: h in hosts ==> h in kids
  {
    if hosts == [] then [] else AllChildren(hosts[..|hosts| - 1], kids) + kids[hosts[|hosts| - 1]]
  }

  /** Part of the list has been spread over host bridges, in order, one for every bus. */
  ghost predicate Spreading(root: Pci, s: set<Pci>, before: Kids, kids: Kids, hosts: seq<Pci>, buses: seq<Downstream>) {
    && before.Keys == s + {root} && root !in s && Distinct(hosts) && |buses| == |hosts|
    && kids.Keys == before.Keys + Members(hosts) && (forall h :: h in hosts ==> h !in before)
    && (forall p :: p in s ==> kids[p] == before[p])
    && (forall h :: h in hosts ==> h in kids)
    && AllChildren(hosts, kids) + kids[root] == before[root]
    && (forall k :: 0 <= k < |hosts| ==> Hosts(buses[k], kids[hosts[k]]))
    && (forall i, j :: 0 <= i < j < |hosts| ==> BusBefore(buses[i], buses[j]))
    && (forall k, c :: 0 <= k < |hosts| && c in kids[root] ==> UpstreamBefore(buses[k], c.id.domain, c.id.bus))
  }

  predicate BusBefore(a: Downstream, b: Downstream) {
    b.Buses? && UpstreamBefore(a, b.domain, b.secondary)
  }

  lemma {:induction false} SameChildren(hosts: seq<Pci>, k1: Kids, k2: Kids)
    requires forall h :: h in hosts ==> h in k1 && h in k2 && k1[h] == k2[h]
    ensures AllChildren(hosts, k1) == AllChildren(hosts, k2)
  {
    if hosts != [] {
      SameChildren(hosts[..|hosts| - 1], k1, k2);
    }
  }

  /** The first `n` objects have moved. */
  ghost predicate Filling(root: Pci, host: Pci, kids: Kids, kids': Kids, n: nat) {
    && root in kids && host in kids && host != root && n <= |kids[root]|
    && kids' == kids[root := kids[root][n..]][host := kids[root][..n]]
  }

  lemma FillingNext(root: Pci, host: Pci, kids: Kids, now: Kids, n: nat, next: Kids)
    requires Filling(root, host, kids, now, n) && n < |kids[root]|
    requires next == now[root := now[root][..0] + now[root][1..]][host := Spliced(now[host], n, now[root][0])]
    ensures Filling(root, host, kids, next, n + 1)
  {
    var q := kids[root];
    assert q[n..][..0] + q[n..][1..] == q[n + 1..];
    assert q[..n][..n] + [q[n]] + q[..n][n..] == q[..n + 1];
  }

  /** Unlink an object from the list and append it to the host bridge. */
  method MoveToHost(root: Pci, host: Pci, child: Pci, ghost kids: Kids, ghost now: Kids, ghost n: nat)
    returns (next: Pci?, ghost kids': Kids)
    requires Forest(now) && Filling(root, host, kids, now, n) && n < |kids[root]| && child == kids[root][n]
    modifies kids.Keys`firstChild, kids.Keys`lastChild, kids.Keys`nextSibling, kids.Keys`prevSibling
    ensures Forest(kids') && Filling(root, host, kids, kids', n + 1)
    ensures next == if n + 1 < |kids[root]| then kids[root][n + 1] else null
  {
    hide Forest;
    assert now.Keys == kids.Keys;
    Closed(now, root);
    NextOf(now, root, 0);
    next := child.nextSibling;
    ghost var between := TakeOut(root, child, now, 0);
    assert between.Keys == kids.Keys;
    Closed(between, host);
    kids' := PutBefore(host, null, child, between, n);
    FillingNext(root, host, kids, now, n, kids');
  }

  /** The first `n` objects of the list are on the bus of the first one. */
  ghost predicate SameBus(q: seq<Pci>, n: nat, subordinate: nat) {
    && q != [] && n <= |q| && (forall k :: 0 <= k < n ==> SameUpstream(q[k].id, q[0].id))
    && subordinate == LastBus(q[..n], q[0].id.bus)
  }

  lemma SameBusNext(q: seq<Pci>, n: nat, subordinate: nat)
    requires SameBus(q, n, subordinate) && n < |q| && SameUpstream(q[n].id, q[0].id)
    ensures SameBus(q, n + 1, Reach(subordinate, q[n].id))
  {
    assert q[..n + 1][..n] == q[..n];
  }

  lemma FillingStarts(root: Pci, host: Pci, kids: Kids)
    requires root in kids && host in kids && host != root && kids[host] == [] && kids[root] != []
    ensures Filling(root, host, kids, kids, 0) && SameBus(kids[root], 0, kids[root][0].id.bus)
  {
    assert kids[root][0..] == kids[root];
  }

  lemma FillingEnds(root: Pci, host: Pci, kids: Kids, kids': Kids, n: nat, subordinate: nat)
    requires Filling(root, host, kids, kids', n) && n > 0 && SameBus(kids[root], n, subordinate)
    ensures var first := kids[root][0].id;
      host in kids' && Hosts(Buses(first.domain, first.bus, subordinate), kids'[host])
  {
    hide LastBus;
    assert kids[root][..n][0] == kids[root][0];
  }

  /** The inner loop: the first objects of the list that are on one bus move to a new host bridge. */
  method FillHostbridge(root: Pci, host: Pci, ghost kids: Kids) returns (ghost kids': Kids, ghost n: nat)
    requires Forest(kids) && root in kids && host in kids && host != root && kids[host] == []
    requires root.firstChild != null
    modifies kids.Keys`firstChild, kids.Keys`lastChild, kids.Keys`nextSibling, kids.Keys`prevSibling, host`downstream
    ensures Forest(kids') && Filling(root, host, kids, kids', n) && Hosts(host.downstream, kids'[host])
    ensures n < |kids[root]| ==> !SameUpstream(kids[root][n].id, kids[root][0].id)
  {
    ghost var q := kids[root];
    FirstOf(kids, root);
    hide Forest, Hosts, Filling, SameBus, Reach;
    var child := root.firstChild;
    var domain, bus := child.id.domain, child.id.bus;
    var subordinate := bus;
    kids' := kids;
    n := 0;
    FillingStarts(root, host, kids);
    while true
      invariant n < |q| && child == q[n] && SameUpstream(child.id, q[0].id)
      invariant Filling(root, host, kids, kids', n) && Forest(kids')
      invariant SameBus(q, n, subordinate)
      decreases |q| - n
    {
      var next;
      next, kids' := MoveToHost(root, host, child, kids, kids', n);
      SameBusNext(q, n, subordinate);
      subordinate := Reach(subordinate, child.id);
      n := n + 1;
      if next == null || next.id.domain != domain || next.id.bus != bus {
        break;
      }
      child := next;
    }
    FillingEnds(root, host, kids, kids', n, subordinate);
    host.downstream := Buses(domain, bus, subordinate);
  }

  /** One more host bridge: those before it keep what they have, and what is left is on later buses. */
  lemma HostAdded(root: Pci, s: set<Pci>, before: Kids, kids: Kids, hosts: seq<Pci>, buses: seq<Downstream>,
                  host: Pci, bus: Downstream, kids': Kids, n: nat)
    requires Spreading(root, s, before, kids, hosts, buses) && Sorted(before[root])
    requires host !in kids && Filling(root, host, kids[host := []], kids', n) && Hosts(bus, kids'[host])
    requires n < |kids[root]| ==> !SameUpstream(kids[root][n].id, kids[root][0].id)
    ensures Spreading(root, s, before, kids', hosts + [host], buses + [bus])
    ensures n > 0
  {
    hide Sorted, Hosts, UpstreamBefore, BusBefore, AllChildren, SameUpstream, Distinct;
    var q := kids[root];
    assert kids' == kids[root := q[n..]][host := q[..n]];
    LaterBuses(before[root], AllChildren(hosts, kids), q, n, bus);
    EarlierBuses(buses, q, n, bus);
    assert forall c :: c in q[n..] ==> c in q;
    HostAppended(hosts, host);
    ChildrenAppended(hosts, host, kids, kids', q, n);
    assert Members(hosts + [host]) == Members(hosts) + {host};
    HostsAppended(hosts, host, kids, kids', buses, bus);
    BusesAppended(buses, bus);
  }

  lemma HostAppended(hosts: seq<Pci>, host: Pci)
    requires Distinct(hosts) && host !in hosts
    ensures Distinct(hosts + [host])
    ensures forall h :: h in hosts + [host] ==> h in hosts || h == host
  {
  }

  lemma ChildrenAppended(hosts: seq<Pci>, host: Pci, kids: Kids, kids': Kids, q: seq<Pci>, n: nat)
    requires host !in hosts && host in kids' && n <= |q| && kids'[host] == q[..n]
    requires forall h :: h in hosts ==> h in kids && h in kids' && kids[h] == kids'[h]
    ensures AllChildren(hosts + [host], kids') + q[n..] == AllChildren(hosts, kids) + q
  {
    var hosts' := hosts + [host];
    assert hosts'[..|hosts|] == hosts;
    SameChildren(hosts, kids, kids');
    assert (AllChildren(hosts, kids) + q[..n]) + q[n..] == AllChildren(hosts, kids) + q;
  }

  lemma HostsAppended(hosts: seq<Pci>, host: Pci, kids: Kids, kids': Kids, buses: seq<Downstream>, bus: Downstream)
    requires |buses| == |hosts| && host in kids' && Hosts(bus, kids'[host])
    requires forall h :: h in hosts ==> h in kids && h in kids' && kids[h] == kids'[h]
    requires forall k :: 0 <= k < |hosts| ==> Hosts(buses[k], kids[hosts[k]])
    ensures forall k :: 0 <= k < |hosts| + 1 ==>
      (hosts + [host])[k] in kids' && Hosts((buses + [bus])[k], kids'[(hosts + [host])[k]])
  {
    hide Hosts;
  }

  lemma BusesAppended(buses: seq<Downstream>, bus: Downstream)
    requires forall i, j :: 0 <= i < j < |buses| ==> BusBefore(buses[i], buses[j])
    requires forall k :: 0 <= k < |buses| ==> BusBefore(buses[k], bus)
    ensures forall i, j :: 0 <= i < j < |buses| + 1 ==> BusBefore((buses + [bus])[i], (buses + [bus])[j])
  {
    hide BusBefore;
  }

  lemma LaterBuses(all: seq<Pci>, front: seq<Pci>, q: seq<Pci>, n: nat, bus: Downstream)
    requires Sorted(all) && all == front + q && n <= |q| && Hosts(bus, q[..n])
    requires n < |q| ==> !SameUpstream(q[n].id, q[0].id)
    ensures n > 0 && forall c :: c in q[n..] ==> UpstreamBefore(bus, c.id.domain, c.id.bus)
  {
    forall c | c in q[n..]
      ensures UpstreamBefore(bus, c.id.domain, c.id.bus)
    {
      var k :| n <= k < |q| && q[k] == c;
      assert all[|front|] == q[0] && all[|front| + n] == q[n] && all[|front| + k] == q[k];
      assert Precedes(q[0].id, q[n].id) && (k > n ==> Precedes(q[n].id, q[k].id));
    }
  }

  lemma EarlierBuses(buses: seq<Downstream>, q: seq<Pci>, n: nat, bus: Downstream)
    requires 0 < n <= |q| && Hosts(bus, q[..n])
    requires forall k, c :: 0 <= k < |buses| && c in q ==> UpstreamBefore(buses[k], c.id.domain, c.id.bus)
    ensures forall k :: 0 <= k < |buses| ==> BusBefore(buses[k], bus)
  {
    assert q[0] in q;
  }

  /** What each host bridge was told about its buses. */
  ghost predicate Announced(hosts: seq<Pci>, buses: seq<Downstream>)
    reads hosts`downstream
  {
    |buses| == |hosts| && forall k :: 0 <= k < |hosts| ==> hosts[k].downstream == buses[k]
  }

  ghost function Left(kids: Kids, root: Pci): nat {
    if root in kids then |kids[root]| else 0
  }

  lemma Fewer(root: Pci, host: Pci, kids: Kids, kids': Kids, n: nat)
    requires host !in kids && Filling(root, host, kids[host := []], kids', n) && n > 0
    ensures Left(kids', root) < Left(kids, root)
  {
  }

  lemma WithHost(root: Pci, s: set<Pci>, before: Kids, kids: Kids, hosts: seq<Pci>, buses: seq<Downstream>, host: Pci)
    requires Forest(kids) && Spreading(root, s, before, kids, hosts, buses) && host !in kids && Unlinked(host)
    ensures root in kids && host != root && Forest(kids[host := []])
    ensures forall p :: p in kids[host := []] ==> p in before || p in hosts || p == host
  {
    hide Hosts, UpstreamBefore, BusBefore;
  }

  /** One turn of the outer loop. */
  method AddHostbridge(root: Pci, ghost s: set<Pci>, ghost before: Kids, ghost kids: Kids,
                       ghost hosts: seq<Pci>, ghost buses: seq<Downstream>)
    returns (host: Pci, ghost kids': Kids)
    requires Forest(kids) && Spreading(root, s, before, kids, hosts, buses)
    requires root.firstChild != null && Sorted(before[root]) && Announced(hosts, buses)
    modifies kids.Keys`firstChild, kids.Keys`lastChild, kids.Keys`nextSibling, kids.Keys`prevSibling
    ensures fresh(host) && Forest(kids') && Announced(hosts + [host], buses + [host.downstream])
    ensures Spreading(root, s, before, kids', hosts + [host], buses + [host.downstream])
    ensures Left(kids', root) < Left(kids, root)
  {
    hide Forest, Spreading, Sorted, Hosts, Filling, SameUpstream, Left;
    host := new Pci(PciId(0, 0, 0, 0, false, 0, 0));
    ghost var wider := kids[host := []];
    WithHost(root, s, before, kids, hosts, buses, host);
    ghost var n;
    kids', n := FillHostbridge(root, host, wider);
    HostAdded(root, s, before, kids, hosts, buses, host, host.downstream, kids', n);
    Fewer(root, host, kids, kids', n);
  }

  /** The outer loop: one host bridge for every upstream bus, which announces the buses that its
      children lead to; the rest of the tree stays. */
  method MakeHostbridges(root: Pci, ghost s: set<Pci>, ghost kids: Kids)
    returns (hosts: seq<Pci>, ghost kids': Kids, ghost buses: seq<Downstream>)
    requires Forest(kids) && IsTree(root, s, kids) && kids.Keys == s + {root} && root !in s
    modifies kids.Keys`firstChild, kids.Keys`lastChild, kids.Keys`nextSibling, kids.Keys`prevSibling
    ensures Forest(kids') && Spreading(root, s, kids, kids', hosts, buses) && kids'[root] == []
    ensures Announced(hosts, buses) && forall h :: h in hosts ==> fresh(h)
  {
    hide Forest, IsTree, Hosts, Spreading, Sorted, Announced, Left, Distinct;
    hosts, kids', buses := [], kids, [];
    NoHosts(root, s, kids);
    while root.firstChild != null
      invariant Forest(kids') && Spreading(root, s, kids, kids', hosts, buses)
      invariant forall h :: h in hosts ==> fresh(h)
      invariant Announced(hosts, buses)
      decreases Left(kids', root)
    {
      RootLeft(root, s, kids, kids', hosts, buses);
      var host;
      ghost var now;
      host, now := AddHostbridge(root, s, kids, kids', hosts, buses);
      kids', hosts, buses := now, hosts + [host], buses + [host.downstream];
    }
    RootLeft(root, s, kids, kids', hosts, buses);
    FirstOf(kids', root);
  }

  lemma NoHosts(root: Pci, s: set<Pci>, kids: Kids)
    requires IsTree(root, s, kids) && kids.Keys == s + {root} && root !in s
    ensures root in kids && Sorted(kids[root]) && Spreading(root, s, kids, kids, [], []) && Announced([], [])
  {
    assert Members([]) == {};
    assert [] + kids[root] == kids[root];
  }

  lemma RootLeft(root: Pci, s: set<Pci>, before: Kids, kids: Kids, hosts: seq<Pci>, buses: seq<Downstream>)
    requires Spreading(root, s, before, kids, hosts, buses)
    ensures root in kids && forall p :: p in kids ==> p in before || p in hosts
  {
  }

  lemma {:induction false} SomeHost(hosts: seq<Pci>, kids: Kids, c: Pci) returns (k: nat)
    requires forall h :: h in hosts ==> h in kids
    requires c in AllChildren(hosts, kids)
    ensures k < |hosts| && c in kids[hosts[k]]
  {
    var n := |hosts| - 1;
    if c in kids[hosts[n]] {
      k := n;
    } else {
      k := SomeHost(hosts[..n], kids, c);
    }
  }
}
