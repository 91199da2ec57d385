/** When the groups are the components of the relation (src/distances.c): the documentation promises
    transitive graphs of minimal distances, and the scans do not always deliver them. */
module GroupClosure {
  import opened GroupSearch
  import opened GroupClasses

  // ---- Components ----

  ghost predicate Symmetric(near: Pairs, n: nat) {
    forall a: nat, b: nat :: a < n && b < n && (a, b) in near ==> (b, a) in near
  }

  ghost predicate Path(near: Pairs, n: nat, p: seq<nat>) {
    && p != [] && (forall k :: 0 <= k < |p| ==> p[k] < n)
    && (forall k :: 0 <= k < |p| - 1 ==> (p[k], p[k + 1]) in near)
  }

  ghost predicate Connected(near: Pairs, n: nat, a: nat, b: nat) {
    exists p :: Path(near, n, p) && p[0] == a && p[|p| - 1] == b
  }

  ghost function Connections(near: Pairs, n: nat): Pairs {
    set a: nat, b: nat | a < n && b < n && Connected(near, n, a, b) :: (a, b)
  }

  /** No object connected to this one comes before it. */
  ghost predicate Leads(near: Pairs, n: nat, i: nat) {
    forall a: nat :: a < i && a < n ==> !Connected(near, n, a, i)
  }

  /** The groups are exactly the components of two objects or more. */
  ghost predicate GroupsAreComponents(near: Pairs, n: nat, ids: seq<nat>)
    requires |ids| == n
  {
    forall a: nat, b: nat :: a < n && b < n && a != b ==> (SameGroup(ids, a, b) <==> Connected(near, n, a, b))
  }

  lemma ConnectedFirst(near: Pairs, n: nat, a: nat, b: nat, c: nat)
    requires a < n && b < n && (a, b) in near && Connected(near, n, b, c)
    ensures Connected(near, n, a, c)
  {
    var p :| Path(near, n, p) && p[0] == b && p[|p| - 1] == c;
    assert Path(near, n, [a] + p);
  }

  lemma ConnectedNear(near: Pairs, n: nat, a: nat, b: nat)
    requires a < n && b < n && (a, b) in near
    ensures Connected(near, n, a, b)
  {
    assert Path(near, n, [a, b]);
  }

  lemma {:induction false} ConnectedTwice(near: Pairs, n: nat, p: seq<nat>, c: nat)
    requires Path(near, n, p) && Connected(near, n, p[|p| - 1], c)
    ensures Connected(near, n, p[0], c)
    decreases |p|
  {
    hide Connected;
    if |p| > 1 {
      assert Path(near, n, p[1..]);
      ConnectedTwice(near, n, p[1..], c);
      ConnectedFirst(near, n, p[0], p[1], c);
    }
  }

  lemma ConnectedAcross(near: Pairs, n: nat, a: nat, b: nat, c: nat)
    requires Connected(near, n, a, b) && Connected(near, n, b, c)
    ensures Connected(near, n, a, c)
  {
    var p :| Path(near, n, p) && p[0] == a && p[|p| - 1] == b;
    ConnectedTwice(near, n, p, c);
  }

  lemma {:induction false} PathBack(near: Pairs, n: nat, p: seq<nat>)
    requires Symmetric(near, n) && Path(near, n, p)
    ensures Connected(near, n, p[|p| - 1], p[0])
    decreases |p|
  {
    if |p| == 1 {
      assert p[|p| - 1] == p[0];
    } else {
      var q := p[1..];
      assert Path(near, n, q);
      PathBack(near, n, q);
      ConnectedNear(near, n, p[1], p[0]);
      ConnectedAcross(near, n, p[|p| - 1], p[1], p[0]);
    }
  }

  lemma ConnectedBack(near: Pairs, n: nat, a: nat, b: nat)
    requires Symmetric(near, n) && Connected(near, n, a, b)
    ensures Connected(near, n, b, a)
  {
    var p :| Path(near, n, p) && p[0] == a && p[|p| - 1] == b;
    PathBack(near, n, p);
  }

  lemma ConnectionsHaveClasses(near: Pairs, n: nat)
    requires Symmetric(near, n)
    ensures HasClasses(Connections(near, n), n)
  {
    hide Connected, Symmetric;
    var all := Connections(near, n);
    forall a: nat, b: nat | a < n && b < n && a != b && (a, b) in all
      ensures (b, a) in all
    {
      ConnectedBack(near, n, a, b);
    }
    forall a: nat, b: nat, c: nat | a < n && b < n && c < n && Chain(all, a, b, c)
      ensures (a, c) in all
    {
      ConnectedAcross(near, n, a, b, c);
    }
  }

  // ---- The search as rounds on sets ----

  /** A path that climbs: every object has a larger index than the one before. */
  ghost predicate Climbing(near: Pairs, n: nat, p: seq<nat>) {
    Path(near, n, p) && forall k :: 0 <= k < |p| - 1 ==> p[k] < p[k + 1]
  }

  ghost predicate Climbs(near: Pairs, n: nat, group: set<nat>, from: nat, x: nat) {
    exists p :: Climbing(near, n, p) && p[0] in group && p[0] >= from && p[|p| - 1] == x
  }

  /** The objects that one climbs to from the members with index `from` or more. */
  ghost function Rows(near: Pairs, n: nat, group: set<nat>, from: nat): set<nat> {
    set x: nat | x < n && Climbs(near, n, group, from, x)
  }

  /** The objects near `x` that are not in the group yet. */
  ghost function News(near: Pairs, n: nat, group: set<nat>, x: nat): set<nat> {
    set y: nat | y < n && y !in group && (x, y) in near
  }

  ghost function Found(near: Pairs, n: nat, group: set<nat>, from: nat): set<nat> {
    set y: nat | y < n && y !in group && exists x :: x in Rows(near, n, group, from) && (x, y) in near
  }

  ghost function Least(s: set<nat>): (m: nat)
    requires s != {}
    ensures m in s && forall x :: x in s ==> m <= x
  {
    var x :| x in s;
    assert forall y :: y in s ==> y == x || y in s - {x};
    if s - {x} == {} then x
    else
      var m := Least(s - {x});
      if m < x then m else x
  }

  /** The rows that find something. */
  ghost function Finders(near: Pairs, n: nat, group: set<nat>, from: nat): set<nat> {
    set x | x in Rows(near, n, group, from) && News(near, n, group, x) != {}
  }

  lemma FoundByFinder(near: Pairs, n: nat, group: set<nat>, from: nat)
    ensures Found(near, n, group, from) != {} <==> Finders(near, n, group, from) != {}
  {
    hide Rows;
    if y :| y in Found(near, n, group, from) {
      var x :| x in Rows(near, n, group, from) && (x, y) in near;
      assert y in News(near, n, group, x) && x in Finders(near, n, group, from);
    }
    if x :| x in Finders(near, n, group, from) {
      var y :| y in News(near, n, group, x);
      assert y in Found(near, n, group, from);
    }
  }

  /** Where the next round starts: the first object found, which need not be the smallest one. */
  ghost function FirstFound(near: Pairs, n: nat, group: set<nat>, from: nat): nat
    requires Found(near, n, group, from) != {}
  {
    FoundByFinder(near, n, group, from);
    Least(News(near, n, group, Least(Finders(near, n, group, from))))
  }

  ghost function Outside(n: nat, group: set<nat>): set<nat> {
    set y: nat | y < n && y !in group
  }

  /** What a group grows to. A round finds what is near to the objects one climbs to from the members
      that do not come before its start. */
  ghost function Reached(near: Pairs, n: nat, group: set<nat>, from: nat): (r: set<nat>)
    ensures group <= r
    decreases Outside(n, group)
  {
    var found := Found(near, n, group, from);
    if found == {} then group
    else
      var y :| y in found;
      assert y in Outside(n, group) && y !in Outside(n, group + found);
      assert Outside(n, group + found) < Outside(n, group);
      Reached(near, n, group + found, FirstFound(near, n, group, from))
  }

  ghost predicate ClosedSet(near: Pairs, n: nat, s: set<nat>) {
    forall x: nat, y: nat :: x in s && y < n && (x, y) in near ==> y in s
  }

  /** Whatever is connected to the first object of a component is reached from it. */
  ghost predicate ReachesAll(near: Pairs, n: nat, i: nat) {
    Leads(near, n, i) ==> ClosedSet(near, n, Reached(near, n, {i}, i))
  }

  // ---- One scan is one round ----

  ghost function Members(ids: seq<nat>, g: nat): (s: set<nat>)
    ensures forall k :: k in s <==> 0 <= k < |ids| && ids[k] == g
  {
    set k: nat | k < |ids| && ids[k] == g
  }

  /** No object of the group, or without group, is near an object of another group. */
  ghost predicate Separate(near: Pairs, ids: seq<nat>, g: nat) {
    forall a: nat, b: nat :: a < |ids| && b < |ids| && (a, b) in near && ids[a] in {0, g} ==> ids[b] in {0, g}
  }

  lemma GrownSeparate(near: Pairs, ids: seq<nat>, more: seq<nat>, g: nat)
    requires Separate(near, ids, g) && Grown(ids, more, g)
    ensures Separate(near, more, g)
  {
  }

  lemma RowsSkip(near: Pairs, ids: seq<nat>, g: nat, j: nat)
    requires j < |ids| && ids[j] != g
    ensures Rows(near, |ids|, Members(ids, g), j) == Rows(near, |ids|, Members(ids, g), j + 1)
  {
    var n, group := |ids|, Members(ids, g);
    forall x | x in Rows(near, n, group, j)
      ensures x in Rows(near, n, group, j + 1)
    {
      var p :| Climbing(near, n, p) && p[0] in group && p[0] >= j && p[|p| - 1] == x;
      assert p[0] != j;
    }
    forall x | x in Rows(near, n, group, j + 1)
      ensures x in Rows(near, n, group, j)
    {
      var p :| Climbing(near, n, p) && p[0] in group && p[0] >= j + 1 && p[|p| - 1] == x;
    }
  }

  /** Row `j` itself, and what one climbs to once its neighbours have joined. */
  lemma RowsStep(near: Pairs, ids: seq<nat>, g: nat, j: nat)
    requires g > 0 && j < |ids| && ids[j] == g && Separate(near, ids, g)
    ensures Rows(near, |ids|, Members(ids, g), j) == {j} + Rows(near, |ids|, Members(Joined(near, ids, g, j), g), j + 1)
  {
    var n, group, more := |ids|, Members(ids, g), Members(Joined(near, ids, g, j), g);
    assert Climbing(near, n, [j]) && [j][0] in group;
    forall x | x in Rows(near, n, group, j) && x != j
      ensures x in Rows(near, n, more, j + 1)
    {
      var p :| Climbing(near, n, p) && p[0] in group && p[0] >= j && p[|p| - 1] == x;
      if p[0] == j {
        assert |p| > 1 && (j, p[1]) in near && p[1] > j;
        assert Climbing(near, n, p[1..]);
      }
    }
    forall x | x in Rows(near, n, more, j + 1)
      ensures x in Rows(near, n, group, j)
    {
      var p :| Climbing(near, n, p) && p[0] in more && p[0] >= j + 1 && p[|p| - 1] == x;
      if p[0] !in group {
        assert Climbing(near, n, [j] + p);
      }
    }
  }

  lemma RowsEnd(near: Pairs, n: nat, group: set<nat>, from: nat)
    ensures forall x :: x in Rows(near, n, group, from) ==> from <= x < n
  {
    forall x | x in Rows(near, n, group, from)
      ensures from <= x
    {
      var p :| Climbing(near, n, p) && p[0] in group && p[0] >= from && p[|p| - 1] == x;
      PathClimbs(near, n, p);
    }
  }

  lemma {:induction false} PathClimbs(near: Pairs, n: nat, p: seq<nat>)
    requires Climbing(near, n, p)
    ensures p[0] <= p[|p| - 1]
    decreases |p|
  {
    if |p| > 1 {
      assert Climbing(near, n, p[1..]);
      PathClimbs(near, n, p[1..]);
    }
  }

  /** The members after a row has been read. */
  lemma JoinedMembers(near: Pairs, ids: seq<nat>, g: nat, j: nat)
    requires g > 0 && j < |ids| && ids[j] == g && Separate(near, ids, g)
    ensures Members(Joined(near, ids, g, j), g) == Members(ids, g) + News(near, |ids|, Members(ids, g), j)
    ensures
      var first, news := FirstJoining(near, ids, j, 0), News(near, |ids|, Members(ids, g), j);
      if first == -1 then news == {} else news != {} && first == Least(news)
  {
    var first, news := FirstJoining(near, ids, j, 0), News(near, |ids|, Members(ids, g), j);
    if first == -1 {
      assert forall k: nat :: k < |ids| && (j, k) in near ==> ids[k] != 0;
    } else {
      assert first in news;
      FirstIsLeast(near, ids, j, 0);
    }
  }

  lemma {:induction false} FirstIsLeast(near: Pairs, ids: seq<nat>, j: nat, k: nat)
    ensures var first := FirstJoining(near, ids, j, k);
      forall l :: k <= l < first && l < |ids| ==> !(ids[l] == 0 && (j, l) in near)
    decreases |ids| - k
  {
    if k < |ids| {
      FirstIsLeast(near, ids, j, k + 1);
    }
  }

  /** What is found splits into what row `j` finds and what later rows find. */
  lemma FoundStep(near: Pairs, ids: seq<nat>, g: nat, j: nat)
    requires g > 0 && j < |ids| && ids[j] == g && Separate(near, ids, g)
    ensures
      var n, group, more := |ids|, Members(ids, g), Members(Joined(near, ids, g, j), g);
      Found(near, n, group, j) == News(near, n, group, j) + Found(near, n, more, j + 1)
  {
    var n, group, more := |ids|, Members(ids, g), Members(Joined(near, ids, g, j), g);
    RowsStep(near, ids, g, j);
    JoinedMembers(near, ids, g, j);
    hide Rows, Joined, Members, Separate;
    forall y | y in Found(near, n, group, j)
      ensures y in News(near, n, group, j) + Found(near, n, more, j + 1)
    {
      var x :| x in Rows(near, n, group, j) && (x, y) in near;
      assert x == j || x in Rows(near, n, more, j + 1);
    }
    assert j in Rows(near, n, group, j);
    forall y | y in Found(near, n, more, j + 1)
      ensures y in Found(near, n, group, j)
    {
      var x :| x in Rows(near, n, more, j + 1) && (x, y) in near;
      assert x in Rows(near, n, group, j);
    }
  }

  lemma FirstStep(near: Pairs, ids: seq<nat>, g: nat, j: nat)
    requires g > 0 && j < |ids| && ids[j] == g && Separate(near, ids, g)
    ensures
      var n, group, first := |ids|, Members(ids, g), FirstJoining(near, ids, j, 0);
      Found(near, n, group, j) != {} ==>
        if first != -1 then FirstFound(near, n, group, j) == first
        else Found(near, n, group, j + 1) != {} && FirstFound(near, n, group, j) == FirstFound(near, n, group, j + 1)
  {
    var n, group, first := |ids|, Members(ids, g), FirstJoining(near, ids, j, 0);
    RowsStep(near, ids, g, j);
    JoinedMembers(near, ids, g, j);
    RowsEnd(near, n, group, j);
    FoundByFinder(near, n, group, j);
    FoundByFinder(near, n, group, j + 1);
    hide Rows, Joined, Members, Separate, Found;
    if Finders(near, n, group, j) != {} {
      if first != -1 {
        assert j in Finders(near, n, group, j);
        assert Least(Finders(near, n, group, j)) == j;
      } else {
        assert Members(Joined(near, ids, g, j), g) == group;
        assert Finders(near, n, group, j) == Finders(near, n, group, j + 1);
      }
    }
  }

  lemma {:induction false} ScanIsRound(near: Pairs, ids: seq<nat>, g: nat, j: nat)
    requires g > 0 && Separate(near, ids, g)
    ensures
      var n, group, r := |ids|, Members(ids, g), Scan(near, ids, g, j);
      var found := Found(near, n, group, j);
      && Members(r.0, g) == group + found
      && r.1 == if found == {} then -1 else FirstFound(near, n, group, j)
    decreases |ids| - j
  {
    hide Separate, Rows, Found, FirstFound, Members, Joined, FirstJoining;
    var n, group := |ids|, Members(ids, g);
    if j >= n {
      NothingPast(near, n, group, j);
    } else if ids[j] != g {
      SkipRow(near, ids, g, j);
      ScanIsRound(near, ids, g, j + 1);
    } else {
      var more := Joined(near, ids, g, j);
      JoinedSeparate(near, ids, g, j);
      ScanIsRound(near, more, g, j + 1);
      FoundStep(near, ids, g, j);
      FirstStep(near, ids, g, j);
      JoinedMembers(near, ids, g, j);
      var first, news := FirstJoining(near, ids, j, 0), News(near, n, group, j);
      if first == -1 {
        assert group + news == group && news + Found(near, n, group, j + 1) == Found(near, n, group, j + 1);
      } else {
        assert news + Found(near, n, Members(more, g), j + 1) != {};
      }
    }
  }

  lemma JoinedSeparate(near: Pairs, ids: seq<nat>, g: nat, j: nat)
    requires Separate(near, ids, g)
    ensures Separate(near, Joined(near, ids, g, j), g)
  {
  }

  lemma NothingPast(near: Pairs, n: nat, group: set<nat>, j: nat)
    requires j >= n
    ensures Found(near, n, group, j) == {}
  {
    RowsEnd(near, n, group, j);
  }

  lemma SkipRow(near: Pairs, ids: seq<nat>, g: nat, j: nat)
    requires j < |ids| && ids[j] != g
    ensures
      var n, group := |ids|, Members(ids, g);
      && Found(near, n, group, j) == Found(near, n, group, j + 1)
      && (Found(near, n, group, j) != {} ==> FirstFound(near, n, group, j) == FirstFound(near, n, group, j + 1))
  {
    RowsSkip(near, ids, g, j);
    hide Rows;
    var n, group := |ids|, Members(ids, g);
    assert Finders(near, n, group, j) == Finders(near, n, group, j + 1);
  }

  // ---- The whole search of one group ----

  lemma {:induction false} CloseIsReached(near: Pairs, ids: seq<nat>, g: nat, first: int)
    requires g > 0 && Separate(near, ids, g) && first >= 0
    ensures Members(Close(near, ids, g, first), g) == Reached(near, |ids|, Members(ids, g), first)
    decreases Free(ids), first + 1
  {
    hide Separate, Found, FirstFound, Scan;
    var (more, found) := Scan(near, ids, g, first);
    FewerFree(ids, more, g);
    ScanIsRound(near, ids, g, first);
    if found != -1 {
      GrownSeparate(near, ids, more, g);
      CloseIsReached(near, more, g, found);
    }
  }

  // ---- All groups ----

  /** Objects that are in a group already have come to it from an earlier object. */
  ghost predicate Led(s: Search, i: nat) {
    forall k: nat :: i <= k < |s.ids| && s.ids[k] != 0 ==> exists a: nat :: a < i && a < |s.ids| && s.ids[a] == s.ids[k]
  }

  ghost predicate AllReach(near: Pairs, n: nat, i: nat) {
    forall k: nat :: i <= k < n ==> ReachesAll(near, n, k)
  }

  /** Objects keep the group that they have; the others stay free or join a later group. */
  lemma {:induction false} GroupsStay(near: Pairs, s: Search, i: nat, k: nat)
    requires s.next > 0 && k < |s.ids|
    ensures var end := Groups(near, s, i);
      if s.ids[k] != 0 then end.ids[k] == s.ids[k] else end.ids[k] == 0 || end.ids[k] >= s.next
    decreases |s.ids| - i
  {
    hide Close, Groups;
    if i >= |s.ids| {
      GroupsEnd(near, s, i);
    } else {
      GroupsStep(near, s, i);
      var alone := s.ids[i := s.next];
      var group := Close(near, alone, s.next, i);
      if s.ids[i] != 0 {
        GroupsStay(near, s, i + 1, k);
      } else if group == alone {
        GroupsStay(near, s.(skipped := s.skipped + 1), i + 1, k);
      } else {
        GroupsStay(near, Search(group, s.next + 1, s.skipped), i + 1, k);
      }
    }
  }

  /** The state before object `i`: the groups so far are whole components. */
  ghost predicate SoFar(near: Pairs, s: Search, i: nat) {
    Settled(Connections(near, |s.ids|), s, i) && Led(s, i)
  }

  /** A free object is the first of its component, all of which is free. */
  lemma FreeComponent(near: Pairs, s: Search, i: nat)
    requires Symmetric(near, |s.ids|) && SoFar(near, s, i) && i < |s.ids| && s.ids[i] == 0
    ensures Leads(near, |s.ids|, i) && Separate(near, s.ids[i := s.next], s.next)
  {
    hide Connected, Symmetric, Led;
    var n, all := |s.ids|, Connections(near, |s.ids|);
    forall a: nat | a < i
      ensures !Connected(near, n, a, i)
    {
      assert Connected(near, n, a, i) ==> (a, i) in all;
    }
    var alone := s.ids[i := s.next];
    forall a: nat, b: nat | a < n && b < n && (a, b) in near && alone[a] in {0, s.next}
      ensures alone[b] in {0, s.next}
    {
      if b != i && s.ids[b] != 0 && a != b {
        ConnectedNear(near, n, a, b);
        ConnectedBack(near, n, a, b);
        assert (b, a) in all;
        assert SameGroup(s.ids, b, a);
      }
    }
  }

  /** An object that has a group is not the first of its component. */
  lemma GroupedFollows(near: Pairs, s: Search, i: nat)
    requires SoFar(near, s, i) && i < |s.ids| && s.ids[i] != 0
    ensures ReachesAll(near, |s.ids|, i) && SoFar(near, s, i + 1)
  {
    hide Connected, ClosedSet, Reached;
    var a: nat :| a < i && a < |s.ids| && s.ids[a] == s.ids[i];
    assert SameGroup(s.ids, a, i);
    assert (a, i) in Connections(near, |s.ids|);
  }

  lemma RowsConnected(near: Pairs, n: nat, group: set<nat>, from: nat, x: nat) returns (m: nat)
    requires x in Rows(near, n, group, from)
    ensures m in group && Connected(near, n, m, x)
  {
    var p :| Climbing(near, n, p) && p[0] in group && p[0] >= from && p[|p| - 1] == x;
    m := p[0];
  }

  /** Only what is connected to the members is reached. */
  lemma {:induction false} ReachedConnected(near: Pairs, n: nat, i: nat, group: set<nat>, from: nat)
    requires forall x :: x in group ==> x < n && Connected(near, n, i, x)
    ensures forall x :: x in Reached(near, n, group, from) ==> x < n && Connected(near, n, i, x)
    decreases Outside(n, group)
  {
    hide Rows, Connected, FirstFound;
    var found := Found(near, n, group, from);
    forall y | y in found
      ensures Connected(near, n, i, y)
    {
      var x :| x in Rows(near, n, group, from) && (x, y) in near;
      var m := RowsConnected(near, n, group, from, x);
      RowsEnd(near, n, group, from);
      ConnectedNear(near, n, x, y);
      ConnectedAcross(near, n, i, m, x);
      ConnectedAcross(near, n, i, x, y);
    }
    if found != {} {
      var y :| y in found;
      assert y in Outside(n, group) && y !in Outside(n, group + found);
      assert Outside(n, group + found) < Outside(n, group);
      ReachedConnected(near, n, i, group + found, FirstFound(near, n, group, from));
    }
  }

  lemma {:induction false} ClosedAlong(near: Pairs, n: nat, s: set<nat>, p: seq<nat>)
    requires ClosedSet(near, n, s) && Path(near, n, p) && p[0] in s
    ensures p[|p| - 1] in s
    decreases |p|
  {
    if |p| > 1 {
      assert Path(near, n, p[1..]);
      ClosedAlong(near, n, s, p[1..]);
    }
  }

  /** What is reached from an object, and closed, is its component. */
  lemma ReachedIsComponent(near: Pairs, n: nat, i: nat)
    requires i < n && ClosedSet(near, n, Reached(near, n, {i}, i))
    ensures forall k: nat :: k in Reached(near, n, {i}, i) <==> Connected(near, n, i, k)
    ensures forall k: nat :: k in Reached(near, n, {i}, i) ==> k < n
  {
    hide Reached, ClosedSet;
    assert Path(near, n, [i]) && [i][0] == i;
    ReachedConnected(near, n, i, {i}, i);
    forall k: nat | Connected(near, n, i, k)
      ensures k in Reached(near, n, {i}, i)
    {
      var p :| Path(near, n, p) && p[0] == i && p[|p| - 1] == k;
      ClosedAlong(near, n, Reached(near, n, {i}, i), p);
    }
  }

  /** The group that starts at a free object. */
  lemma GroupReached(near: Pairs, s: Search, i: nat)
    requires Symmetric(near, |s.ids|) && SoFar(near, s, i) && i < |s.ids| && s.ids[i] == 0
    ensures
      var group := Close(near, s.ids[i := s.next], s.next, i);
      Leads(near, |s.ids|, i) && Members(group, s.next) == Reached(near, |s.ids|, {i}, i)
  {
    hide Reached, Close, Leads, Separate, Led, Connected, Symmetric;
    var alone := s.ids[i := s.next];
    FreeComponent(near, s, i);
    assert Members(alone, s.next) == {i};
    CloseIsReached(near, alone, s.next, i);
  }

  function Next(s: Search, i: nat, group: seq<nat>): Search
    requires i < |s.ids|
  {
    if group == s.ids[i := s.next] then s.(skipped := s.skipped + 1) else Search(group, s.next + 1, s.skipped)
  }

  /** A whole component has been added, or its only object left out. */
  lemma ComponentAdded(near: Pairs, s: Search, i: nat, group: seq<nat>)
    requires Symmetric(near, |s.ids|) && SoFar(near, s, i) && i < |s.ids| && s.ids[i] == 0
    requires Grown(s.ids[i := s.next], group, s.next)
    requires forall k: nat :: k < |s.ids| ==> (group[k] == s.next <==> Connected(near, |s.ids|, i, k))
    requires group[i] == s.next
    ensures SoFar(near, Next(s, i, group), i + 1)
  {
    hide Connected, Symmetric;
    var all := Connections(near, |s.ids|);
    var alone := s.ids[i := s.next];
    if group == alone {
      forall k: nat | k < |s.ids| && k != i
        ensures (i, k) !in all
      {
        assert group[k] == s.ids[k] != s.next;
      }
    } else {
      ConnectionsHaveClasses(near, |s.ids|);
      hide HasClasses, Led;
      NewClass(all, s, i, group);
      LedGrows(s, i, group);
    }
  }

  lemma LedGrows(s: Search, i: nat, group: seq<nat>)
    requires Led(s, i) && i < |s.ids| && Grown(s.ids[i := s.next], group, s.next) && group[i] == s.next
    requires s.ids[i] == 0
    ensures Led(Search(group, s.next + 1, s.skipped), i + 1)
  {
    forall k: nat | i + 1 <= k < |group| && group[k] != 0
      ensures exists a: nat :: a < i + 1 && a < |group| && group[a] == group[k]
    {
      if group[k] == s.next {
        assert group[i] == group[k];
      } else {
        var a: nat :| a < i && a < |s.ids| && s.ids[a] == s.ids[k];
        assert group[a] == group[k];
      }
    }
  }

  lemma FreeStep(near: Pairs, s: Search, i: nat)
    requires Symmetric(near, |s.ids|) && SoFar(near, s, i) && i < |s.ids| && s.ids[i] == 0
    requires ReachesAll(near, |s.ids|, i)
    ensures SoFar(near, Next(s, i, Close(near, s.ids[i := s.next], s.next, i)), i + 1)
  {
    hide SoFar, Connected, Symmetric, Leads, Reached, ClosedSet, Close;
    SoFarNext(near, s, i);
    var group := Close(near, s.ids[i := s.next], s.next, i);
    GroupReached(near, s, i);
    ReachedIsComponent(near, |s.ids|, i);
    forall k: nat | k < |s.ids|
      ensures group[k] == s.next <==> Connected(near, |s.ids|, i, k)
    {
      assert k in Members(group, s.next) <==> k in Reached(near, |s.ids|, {i}, i);
    }
    ComponentAdded(near, s, i, group);
  }

  lemma SoFarNext(near: Pairs, s: Search, i: nat)
    ensures SoFar(near, s, i) ==> s.next > 0
  {
  }

  lemma ReachedMore(near: Pairs, n: nat, i: nat, y: nat)
    requires i < n && y < n && y != i && (i, y) in near
    ensures y in Reached(near, n, {i}, i)
  {
    assert Climbing(near, n, [i]) && [i][0] == i;
    assert i in Rows(near, n, {i}, i);
    assert y in Found(near, n, {i}, i);
    hide Rows, FirstFound;
  }

  /** When the group of an object is not closed, two near objects end up in different groups. */
  lemma FreeFails(near: Pairs, s: Search, i: nat)
    requires Symmetric(near, |s.ids|) && SoFar(near, s, i) && i < |s.ids| && s.ids[i] == 0
    requires !ReachesAll(near, |s.ids|, i)
    ensures !GroupsAreComponents(near, |s.ids|, Groups(near, s, i).ids)
  {
    hide SoFar, Connected, Symmetric, Leads, Reached, Close, Groups;
    SoFarNext(near, s, i);
    var n := |s.ids|;
    var alone := s.ids[i := s.next];
    var group := Close(near, alone, s.next, i);
    var reached := Reached(near, n, {i}, i);
    GroupReached(near, s, i);
    GroupsStep(near, s, i);
    var x: nat, y: nat :| x in reached && y < n && (x, y) in near && y !in reached;
    assert x in Members(group, s.next) && y !in Members(group, s.next);
    if group == alone {
      AloneReached(near, s, i);
      ReachedMore(near, n, i, y);
    } else {
      var t := Search(group, s.next + 1, s.skipped);
      GroupsStay(near, t, i + 1, x);
      GroupsStay(near, t, i + 1, y);
      ConnectedNear(near, n, x, y);
    }
  }

  lemma AloneReached(near: Pairs, s: Search, i: nat)
    requires SoFar(near, s, i) && i < |s.ids|
    ensures Members(s.ids[i := s.next], s.next) == {i}
  {
  }

  /** From any state in which the groups are whole components, they stay so exactly when every later
      object reaches all of its own component. */
  lemma {:induction false} GroupsExact(near: Pairs, s: Search, i: nat)
    requires Symmetric(near, |s.ids|) && SoFar(near, s, i) && i <= |s.ids|
    ensures |Groups(near, s, i).ids| == |s.ids|
    ensures GroupsAreComponents(near, |s.ids|, Groups(near, s, i).ids) <==> AllReach(near, |s.ids|, i)
    decreases |s.ids| - i
  {
    hide SoFar, Connected, Symmetric, ReachesAll, Close, Groups, GroupsAreComponents;
    SoFarNext(near, s, i);
    if i == |s.ids| {
      GroupsEnd(near, s, i);
      AllSettled(near, s);
    } else {
      GroupsStep(near, s, i);
      assert AllReach(near, |s.ids|, i) <==> ReachesAll(near, |s.ids|, i) && AllReach(near, |s.ids|, i + 1);
      if s.ids[i] != 0 {
        GroupedFollows(near, s, i);
        GroupsExact(near, s, i + 1);
      } else if ReachesAll(near, |s.ids|, i) {
        FreeStep(near, s, i);
        GroupsExact(near, Next(s, i, Close(near, s.ids[i := s.next], s.next, i)), i + 1);
      } else {
        FreeFails(near, s, i);
      }
    }
  }

  lemma AllSettled(near: Pairs, s: Search)
    requires SoFar(near, s, |s.ids|)
    ensures GroupsAreComponents(near, |s.ids|, s.ids)
  {
    hide Connected;
    forall a: nat, b: nat | a < |s.ids| && b < |s.ids| && a != b
      ensures SameGroup(s.ids, a, b) <==> Connected(near, |s.ids|, a, b)
    {
      assert (a, b) in Connections(near, |s.ids|) <==> Connected(near, |s.ids|, a, b);
    }
  }

  lemma NothingSettled(near: Pairs, n: nat)
    ensures SoFar(near, Start(n), 0)
  {
    hide Connected;
  }

  /** The groups of a symmetric relation are exactly its components of two objects or more, if and
      only if every object that comes first in its component reaches all of it in rounds that climb. */
  lemma GroupsClosedExactly(near: Pairs, n: nat)
    requires Symmetric(near, n)
    ensures |Groups(near, Start(n), 0).ids| == n
    ensures GroupsAreComponents(near, n, Groups(near, Start(n), 0).ids) <==>
        forall i: nat :: i < n ==> ReachesAll(near, n, i)
  {
    hide Groups, ReachesAll, Symmetric, GroupsAreComponents, SoFar;
    NothingSettled(near, n);
    GroupsExact(near, Start(n), 0);
  }

  /** The same for what the search finds in a symmetric matrix of distances. */
  lemma MatrixGroups(d: seq<real>, n: nat, least: real, accuracy: real)
    requires Square(d, n)
    requires forall i: nat, j: nat :: i < n && j < n ==> Distance(d, n, i, j) == Distance(d, n, j, i)
    ensures var near := Near(d, n, least, accuracy);
      && |Groups(near, Start(n), 0).ids| == n
      && (GroupsAreComponents(near, n, Groups(near, Start(n), 0).ids) <==>
          forall i: nat :: i < n ==> ReachesAll(near, n, i))
  {
    hide Square, Distance, CompareDistances, Groups, ReachesAll, GroupsAreComponents;
    GroupsClosedExactly(Near(d, n, least, accuracy), n);
  }

  // ---- When one round is enough ----

  /** Every object is near one that is reached by climbing from the first object of the component. */
  ghost predicate OneRound(near: Pairs, n: nat) {
    forall i: nat, y: nat :: i < n && y < n && y != i && Leads(near, n, i) && Connected(near, n, i, y) ==>
      exists x :: x in Rows(near, n, {i}, i) && (x, y) in near
  }

  /** Every object but the first of its component is near a smaller one. */
  ghost predicate Ascending(near: Pairs, n: nat) {
    forall y: nat :: y < n && !Leads(near, n, y) ==> exists x: nat :: x < y && (x, y) in near
  }

  lemma ComponentStays(near: Pairs, n: nat, i: nat, group: set<nat>, from: nat)
    requires forall k: nat :: k in group <==> k < n && Connected(near, n, i, k)
    ensures Reached(near, n, group, from) == group
  {
    hide Connected, FirstFound;
    if y :| y in Found(near, n, group, from) {
      var x :| x in Rows(near, n, group, from) && (x, y) in near;
      var m := RowsConnected(near, n, group, from, x);
      RowsEnd(near, n, group, from);
      ConnectedNear(near, n, x, y);
      ConnectedAcross(near, n, i, m, x);
      ConnectedAcross(near, n, i, x, y);
      assert false;
    }
  }

  /** In one round everything is reached. */
  lemma OneRoundReaches(near: Pairs, n: nat, i: nat)
    requires OneRound(near, n) && i < n && Leads(near, n, i)
    ensures ClosedSet(near, n, Reached(near, n, {i}, i))
  {
    hide Connected, Rows, FirstFound, Leads;
    var found := Found(near, n, {i}, i);
    ConnectedSelf(near, n, i);
    forall k: nat
      ensures k in {i} + found <==> k < n && Connected(near, n, i, k)
    {
      if k in found {
        var x :| x in Rows(near, n, {i}, i) && (x, k) in near;
        var m := RowsConnected(near, n, {i}, i, x);
        RowsEnd(near, n, {i}, i);
        ConnectedNear(near, n, x, k);
        ConnectedAcross(near, n, i, x, k);
      }
    }
    if found != {} {
      ComponentStays(near, n, i, {i} + found, FirstFound(near, n, {i}, i));
    }
    ComponentClosed(near, n, i, {i} + found);
    assert {i} + {} == {i};
  }

  lemma ConnectedSelf(near: Pairs, n: nat, i: nat)
    requires i < n
    ensures Connected(near, n, i, i)
  {
    assert Path(near, n, [i]) && [i][0] == i;
  }

  lemma ComponentClosed(near: Pairs, n: nat, i: nat, s: set<nat>)
    requires forall k: nat :: k in s <==> k < n && Connected(near, n, i, k)
    ensures ClosedSet(near, n, s)
  {
    hide Connected;
    forall x: nat, y: nat | x in s && y < n && (x, y) in near
      ensures y in s
    {
      ConnectedNear(near, n, x, y);
      ConnectedAcross(near, n, i, x, y);
    }
  }

  /** One round is always enough when no object has to be found from a larger one only. */
  lemma OneRoundIsEnough(near: Pairs, n: nat)
    requires Symmetric(near, n) && OneRound(near, n)
    ensures |Groups(near, Start(n), 0).ids| == n && GroupsAreComponents(near, n, Groups(near, Start(n), 0).ids)
  {
    hide Symmetric, OneRound, Groups, GroupsAreComponents, ClosedSet, Reached, Leads;
    GroupsClosedExactly(near, n);
    forall i: nat | i < n
      ensures ReachesAll(near, n, i)
    {
      if Leads(near, n, i) {
        OneRoundReaches(near, n, i);
      }
    }
  }

  /** The first object of a component climbs to all of it. */
  lemma {:induction false} AscendingClimbs(near: Pairs, n: nat, i: nat, y: nat)
    requires Symmetric(near, n) && Ascending(near, n) && i < n && y < n && Leads(near, n, i) && Connected(near, n, i, y)
    ensures y in Rows(near, n, {i}, i)
    ensures y != i ==> exists x :: x in Rows(near, n, {i}, i) && (x, y) in near
    decreases y
  {
    hide Connected, Symmetric;
    if y == i {
      assert Climbing(near, n, [i]) && [i][0] == i;
    } else {
      ConnectedBack(near, n, i, y);
      assert i < y && !Leads(near, n, y);
      var x: nat :| x < y && (x, y) in near;
      ConnectedNear(near, n, x, y);
      ConnectedBack(near, n, x, y);
      ConnectedAcross(near, n, i, y, x);
      AscendingClimbs(near, n, i, x);
      var p :| Climbing(near, n, p) && p[0] in {i} && p[0] >= i && p[|p| - 1] == x;
      assert Climbing(near, n, p + [y]);
    }
  }

  lemma AscendingInOneRound(near: Pairs, n: nat)
    requires Symmetric(near, n) && Ascending(near, n)
    ensures OneRound(near, n)
  {
    hide Connected, Symmetric, Ascending, Leads, Rows;
    forall i: nat, y: nat | i < n && y < n && y != i && Leads(near, n, i) && Connected(near, n, i, y)
      ensures exists x :: x in Rows(near, n, {i}, i) && (x, y) in near
    {
      AscendingClimbs(near, n, i, y);
    }
  }

  /** The groups are the components whenever every object but the first of its component is near a
      smaller one. */
  lemma AscendingGroups(near: Pairs, n: nat)
    requires Symmetric(near, n) && Ascending(near, n)
    ensures |Groups(near, Start(n), 0).ids| == n && GroupsAreComponents(near, n, Groups(near, Start(n), 0).ids)
  {
    AscendingInOneRound(near, n);
    OneRoundIsEnough(near, n);
  }

  /** The path that the scans miss: object 2 is in a group, and object 1 next to it is not. */
  lemma PathIsNoComponent()
    ensures Symmetric(PATH, 4) && |Groups(PATH, Start(4), 0).ids| == 4
    ensures !GroupsAreComponents(PATH, 4, Groups(PATH, Start(4), 0).ids)
    ensures exists i: nat :: i < 4 && !ReachesAll(PATH, 4, i)
  {
    hide Groups, Connected, ReachesAll;
    PathIsMissed();
    GroupsClosedExactly(PATH, 4);
    ConnectedNear(PATH, 4, 2, 1);
    var ids := Groups(PATH, Start(4), 0).ids;
    assert ids[2] == 1 && ids[1] == 0 && !SameGroup(ids, 2, 1);
  }
}
