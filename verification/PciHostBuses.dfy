/** The buses that host bridges announce (src/topology-libpci.c): every bus of a device is announced,
    and when it is announced by one host bridge only. */
module PciHostBuses {
  import opened PciFamily
  import opened PciTree
  import opened PciDiscovery

  predicate Announces(h: Downstream, x: PciId) {
    h.Buses? && h.domain == x.domain && h.secondary <= x.bus <= h.subordinate
  }

  /** Every device is on a bus that some host bridge announces, below a child of that bridge; and no
      two host bridges start at the same bus. */
  lemma EveryDeviceHosted(root: Pci, s: set<Pci>, before: Kids, kids: Kids, hosts: seq<Pci>, buses: seq<Downstream>,
                          x: Pci) returns (k: nat, c: Pci)
    requires Family(root, s) && IsTree(root, s, before) && Spreading(root, s, before, kids, hosts, buses)
    requires kids[root] == [] && x in s
    ensures k < |hosts| && c in kids[hosts[k]] && (x == c || Inside(x.id, c.id)) && Announces(buses[k], x.id)
    ensures forall j :: 0 <= j < |buses| && j != k ==>
      buses[j].Buses? && (buses[j].domain != buses[k].domain || buses[j].secondary != buses[k].secondary)
  {
    hide IsParent, Compatible;
    c := ChildCovers(root, s, root, x);
    assert c in Elements(before[root]) && before[root] == AllChildren(hosts, kids);
    k := SomeHost(hosts, kids, c);
    assert Hosts(buses[k], kids[hosts[k]]) && SameUpstream(c.id, kids[hosts[k]][0].id);
    forall j | 0 <= j < |buses| && j != k
      ensures buses[j].Buses? && (buses[j].domain != buses[k].domain || buses[j].secondary != buses[k].secondary)
    {
      assert Hosts(buses[j], kids[hosts[j]]);
      assert if j < k then BusBefore(buses[j], buses[k]) else BusBefore(buses[k], buses[j]);
    }
  }

  // ---- When every bus is announced once ----

  /** On a bus after that of a bridge, and before those behind it. */
  predicate InGap(c: PciId, b: PciId) {
    b.bridge && c.domain == b.domain && b.bus < c.bus < b.secondary
  }

  ghost predicate NoGap(top: seq<Pci>) {
    forall b, c :: b in top && c in top ==> !InGap(c.id, b.id)
  }

  ghost predicate AnnouncedOnce(buses: seq<Downstream>, x: PciId) {
    exists k :: 0 <= k < |buses| && Announces(buses[k], x)
      && forall j :: 0 <= j < |buses| && Announces(buses[j], x) ==> j == k
  }

  /** What host bridges stand for when all objects have been spread over them. */
  ghost predicate Spread(root: Pci, s: set<Pci>, before: Kids, kids: Kids, hosts: seq<Pci>, buses: seq<Downstream>) {
    && Family(root, s) && IsTree(root, s, before) && Spreading(root, s, before, kids, hosts, buses)
    && kids[root] == []
  }

  /** Objects at the top are not behind one another. */
  lemma TopIsOutside(root: Pci, s: set<Pci>, before: Kids, b: Pci, c: Pci)
    requires Family(root, s) && IsTree(root, s, before) && b in before[root] && c in before[root]
    ensures b in s && c in s && !Inside(c.id, b.id)
  {
    hide Compatible, Sorted;
    assert b in Elements(before[root]) && c in Elements(before[root]);
  }

  lemma {:induction false} HostedAtTop(hosts: seq<Pci>, kids: Kids, k: nat, c: Pci)
    requires (forall h :: h in hosts ==> h in kids) && k < |hosts| && c in kids[hosts[k]]
    ensures c in AllChildren(hosts, kids)
  {
    var n := |hosts| - 1;
    if k < n {
      HostedAtTop(hosts[..n], kids, k, c);
    }
  }

  /** The host bridge of an object at the top. */
  lemma HostOfTop(root: Pci, s: set<Pci>, before: Kids, kids: Kids, hosts: seq<Pci>, buses: seq<Downstream>, c: Pci)
    returns (k: nat)
    requires Spread(root, s, before, kids, hosts, buses) && c in before[root]
    ensures k < |hosts| == |buses| && c in kids[hosts[k]] && Starts(buses[k], c.id)
    ensures c.id.bridge ==> c.id.subordinate <= buses[k].subordinate
  {
    hide Family, IsTree, LastBus;
    assert before[root] == AllChildren(hosts, kids);
    k := SomeHost(hosts, kids, c);
    assert Hosts(buses[k], kids[hosts[k]]);
    assert SameUpstream(c.id, kids[hosts[k]][0].id);
  }

  predicate Starts(h: Downstream, c: PciId) {
    h.Buses? && h.domain == c.domain && h.secondary == c.bus
  }

  /** The objects that make a host bridge start where it starts, and end where it ends. */
  lemma EndsOfHost(root: Pci, s: set<Pci>, before: Kids, kids: Kids, hosts: seq<Pci>, buses: seq<Downstream>, k: nat)
    returns (first: Pci, last: Pci)
    requires Spread(root, s, before, kids, hosts, buses) && k < |buses|
    ensures first in before[root] && last in before[root] && Starts(buses[k], first.id) && Starts(buses[k], last.id)
    ensures buses[k].subordinate > buses[k].secondary ==> last.id.bridge && last.id.subordinate == buses[k].subordinate
  {
    hide Family, IsTree;
    var q := kids[hosts[k]];
    assert Hosts(buses[k], q);
    first := q[0];
    last := first;
    if buses[k].subordinate > buses[k].secondary {
      last :| last in q && last.id.bridge && last.id.subordinate == buses[k].subordinate;
    }
    assert SameUpstream(last.id, first.id);
    HostedAtTop(hosts, kids, k, first);
    HostedAtTop(hosts, kids, k, last);
  }

  /** Two host bridges with a common bus: the later one starts in a gap. */
  lemma CommonBusIsGap(root: Pci, s: set<Pci>, before: Kids, kids: Kids, hosts: seq<Pci>, buses: seq<Downstream>,
                       j: nat, k: nat, x: PciId)
    requires Spread(root, s, before, kids, hosts, buses) && j < k < |buses|
    requires Announces(buses[j], x) && Announces(buses[k], x)
    ensures !NoGap(before[root])
  {
    var f, b := EndsOfHost(root, s, before, kids, hosts, buses, j);
    var c, l := EndsOfHost(root, s, before, kids, hosts, buses, k);
    assert BusBefore(buses[j], buses[k]);
    hide Family, IsTree, Spreading, Hosts;
    TopIsOutside(root, s, before, b, c);
    assert InGap(c.id, b.id);
  }

  /** An object in a gap is on a bus that two host bridges announce. */
  lemma GapIsAnnouncedTwice(root: Pci, s: set<Pci>, before: Kids, kids: Kids, hosts: seq<Pci>, buses: seq<Downstream>,
                            b: Pci, c: Pci) returns (j: nat, k: nat)
    requires Spread(root, s, before, kids, hosts, buses)
    requires b in before[root] && c in before[root] && InGap(c.id, b.id)
    ensures j < |buses| && k < |buses| && j != k && Announces(buses[j], c.id) && Announces(buses[k], c.id)
    ensures c in s
  {
    j := HostOfTop(root, s, before, kids, hosts, buses, b);
    k := HostOfTop(root, s, before, kids, hosts, buses, c);
    hide Spreading, IsTree;
    TopIsOutside(root, s, before, b, c);
    assert Sound(b.id);
    EndsInOrder(root, s, before, kids, hosts, buses, k);
  }

  lemma EndsInOrder(root: Pci, s: set<Pci>, before: Kids, kids: Kids, hosts: seq<Pci>, buses: seq<Downstream>, k: nat)
    requires Spread(root, s, before, kids, hosts, buses) && k < |buses|
    ensures buses[k].Buses? && buses[k].secondary <= buses[k].subordinate
  {
    hide Family, IsTree;
    assert Hosts(buses[k], kids[hosts[k]]);
  }

  /** Every bus of a device is announced by one host bridge only exactly when no object at the top is
      on a bus strictly between that of a bridge at the top and those behind it. */
  lemma AnnouncedOnceExactly(root: Pci, s: set<Pci>, before: Kids, kids: Kids, hosts: seq<Pci>, buses: seq<Downstream>)
    requires Spread(root, s, before, kids, hosts, buses)
    ensures (forall x :: x in s ==> AnnouncedOnce(buses, x.id)) <==> NoGap(before[root])
  {
    if NoGap(before[root]) {
      hide NoGap;
      forall x | x in s
        ensures AnnouncedOnce(buses, x.id)
      {
        DeviceAnnouncedOnce(root, s, before, kids, hosts, buses, x);
      }
    } else {
      var b, c :| b in before[root] && c in before[root] && InGap(c.id, b.id);
      var j, k := GapIsAnnouncedTwice(root, s, before, kids, hosts, buses, b, c);
      assert !AnnouncedOnce(buses, c.id);
    }
  }

  lemma DeviceAnnouncedOnce(root: Pci, s: set<Pci>, before: Kids, kids: Kids, hosts: seq<Pci>, buses: seq<Downstream>,
                            x: Pci)
    requires Spread(root, s, before, kids, hosts, buses) && NoGap(before[root]) && x in s
    ensures AnnouncedOnce(buses, x.id)
  {
    var k, c := EveryDeviceHosted(root, s, before, kids, hosts, buses, x);
    assert |hosts| == |buses|;
    hide Family, IsTree, Spreading, NoGap, Announces;
    forall j | 0 <= j < |buses| && Announces(buses[j], x.id)
      ensures j == k
    {
      if j < k {
        CommonBusIsGap(root, s, before, kids, hosts, buses, j, k, x.id);
      } else if k < j {
        CommonBusIsGap(root, s, before, kids, hosts, buses, k, j, x.id);
      }
    }
  }

  // ---- A bus that is announced twice ----

  /** Two bridges on bus 0, to buses 1 and 3, and a device on bus 2. */
  const TO_BUS_1 := PciId(0, 0, 1, 0, true, 1, 1)
  const TO_BUS_3 := PciId(0, 0, 2, 0, true, 3, 3)
  const ON_BUS_2 := PciId(0, 2, 0, 0, false, 0, 0)

  method AddGapDevices() returns (root: Pci, a: Pci, b: Pci, x: Pci, ghost kids: Kids)
    ensures a.id == TO_BUS_1 && b.id == TO_BUS_3 && x.id == ON_BUS_2 && root !in {a, b, x}
    ensures fresh(root) && fresh(a) && fresh(b) && fresh(x) && Forest(kids)
    ensures IsTree(root, {a, b, x}, kids) && kids.Keys == {a, b, x} + {root}
  {
    hide TO_BUS_1, TO_BUS_3, ON_BUS_2, IsTree, Family, Forest;
    root := new Pci(PciId(0, 0, 0, 0, false, 0, 0));
    a := new Pci(TO_BUS_1);
    b := new Pci(TO_BUS_3);
    x := new Pci(ON_BUS_2);
    var devices := [x, b, a];
    assert root !in {a, b, x};
    GapFamily(root, a, b, x);
    assert Members(devices) == {a, b, x};
    kids := AddDevices(root, devices);
  }

  ghost predicate AnnouncedTwice(hosts: seq<Pci>, x: PciId)
    reads hosts`downstream
  {
    exists j, k ::
      0 <= j < |hosts| && 0 <= k < |hosts| && j != k
      && Announces(hosts[j].downstream, x) && Announces(hosts[k].downstream, x)
  }

  /** A real run: the device is found on the bus of its own host bridge, and among the buses of the
      other one. */
  method BusAnnouncedTwice() returns (hosts: seq<Pci>, x: Pci)
    ensures x.id == ON_BUS_2 && AnnouncedTwice(hosts, x.id)
  {
    hide TO_BUS_1, TO_BUS_3, ON_BUS_2, IsTree, Family, Forest, Spreading, Announced, AnnouncedTwice, InGap, Members;
    var root, a, b;
    ghost var kids;
    root, a, b, x, kids := AddGapDevices();
    GapFamily(root, a, b, x);
    GapTop(root, a, b, x, kids);
    ghost var kids', buses;
    hosts, kids', buses := MakeHostbridges(root, {a, b, x}, kids);
    ghost var j, k := GapIsAnnouncedTwice(root, {a, b, x}, kids, kids', hosts, buses, b, x);
    TwiceFromBuses(hosts, buses, x.id, j, k);
  }

  lemma TwiceFromBuses(hosts: seq<Pci>, buses: seq<Downstream>, x: PciId, j: nat, k: nat)
    requires Announced(hosts, buses) && j < |buses| && k < |buses| && j != k
    requires Announces(buses[j], x) && Announces(buses[k], x)
    ensures AnnouncedTwice(hosts, x)
  {
    assert hosts[j].downstream == buses[j] && hosts[k].downstream == buses[k];
  }

  lemma GapFamily(root: Pci, a: Pci, b: Pci, x: Pci)
    requires a.id == TO_BUS_1 && b.id == TO_BUS_3 && x.id == ON_BUS_2 && root !in {a, b, x}
    ensures Family(root, {a, b, x}) && a != b && a != x && b != x
  {
  }

  lemma GapTop(root: Pci, a: Pci, b: Pci, x: Pci, kids: Kids)
    requires a.id == TO_BUS_1 && b.id == TO_BUS_3 && x.id == ON_BUS_2 && root !in {a, b, x}
    requires IsTree(root, {a, b, x}, kids)
    ensures root in kids && b in kids[root] && x in kids[root] && InGap(x.id, b.id)
  {
    var s := {a, b, x};
    assert b in Children(root, s, root) && x in Children(root, s, root);
    assert b in Elements(kids[root]) && x in Elements(kids[root]);
  }
}
