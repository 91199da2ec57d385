/** What the groups of the search are (src/distances.c): numbered without gaps, of two objects or
    more, and exactly the classes of the relation when it is one that has classes. */
module GroupClasses {
  import opened MatrixCompaction
  import opened GroupSearch

  // ---- Numbering ----

  /** Groups 1 to `next - 1` have two members or more, and there is no other group. */
  ghost predicate Numbered(s: Search) {
    && s.next >= 1
    && (forall k :: 0 <= k < |s.ids| ==> s.ids[k] < s.next)
    && (forall g :: 1 <= g < s.next ==> TwoMembers(s.ids, g))
    && Free(s.ids) + 2 * (s.next - 1) <= |s.ids|
  }

  ghost predicate TwoMembers(ids: seq<nat>, g: nat) {
    exists a, b :: 0 <= a < b < |ids| && ids[a] == g && ids[b] == g
  }

  lemma {:induction false} FreeBounded(ids: seq<nat>)
    ensures Free(ids) <= |ids|
    ensures (forall k :: 0 <= k < |ids| ==> ids[k] == 0) ==> Free(ids) == |ids|
  {
    if ids != [] {
      FreeBounded(ids[..|ids| - 1]);
    }
  }

  /** A closed group that is not just its first object. */
  lemma GroupGrows(s: Search, i: nat, group: seq<nat>)
    requires Numbered(s) && i < |s.ids| && s.ids[i] == 0
    requires var alone := s.ids[i := s.next]; Grown(alone, group, s.next) && group != alone
    ensures Numbered(Search(group, s.next + 1, s.skipped))
  {
    var alone := s.ids[i := s.next];
    FewerFree(s.ids, alone, s.next);
    FewerFree(alone, group, s.next);
    var k :| 0 <= k < |alone| && group[k] != alone[k];
    assert group[i] == s.next && group[k] == s.next;
    assert TwoMembers(group, s.next) by {
      assert if i < k then 0 <= i < k < |group| else 0 <= k < i < |group|;
    }
    forall g | 1 <= g < s.next
      ensures TwoMembers(group, g)
    {
      assert TwoMembers(s.ids, g);
      var a, b :| 0 <= a < b < |s.ids| && s.ids[a] == g && s.ids[b] == g;
      assert group[a] == g && group[b] == g;
    }
  }

  lemma {:induction false} GroupsNumbered(near: Pairs, s: Search, i: nat)
    requires Numbered(s)
    ensures Numbered(Groups(near, s, i))
    decreases |s.ids| - i
  {
    hide Close, Numbered;
    NumberedNext(s);
    if i < |s.ids| {
      GroupsStep(near, s, i);
      if s.ids[i] != 0 {
        GroupsNumbered(near, s, i + 1);
      } else {
        var alone := s.ids[i := s.next];
        var group := Close(near, alone, s.next, i);
        if group == alone {
          NumberedSkip(s);
          GroupsNumbered(near, s.(skipped := s.skipped + 1), i + 1);
        } else {
          GroupGrows(s, i, group);
          GroupsNumbered(near, Search(group, s.next + 1, s.skipped), i + 1);
        }
      }
    }
  }

  lemma NumberedNext(s: Search)
    ensures Numbered(s) ==> s.next >= 1
  {
  }

  lemma NumberedSkip(s: Search)
    requires Numbered(s)
    ensures Numbered(s.(skipped := s.skipped + 1))
  {
  }

  /** For any matrix: ids are contiguous, and there are at most half as many groups as objects. */
  lemma NumberingIsContiguous(near: Pairs, n: nat)
    ensures
      var found := Groups(near, Start(n), 0);
      && 2 * Count(found) <= n && |found.ids| == n
      && (forall k :: 0 <= k < n ==> found.ids[k] < found.next)
      && (forall g :: 1 <= g < found.next ==> TwoMembers(found.ids, g))
  {
    hide Groups;
    FreeBounded(Start(n).ids);
    GroupsNumbered(near, Start(n), 0);
  }

  // ---- Classes ----

  ghost predicate Chain(near: Pairs, a: nat, b: nat, c: nat) {
    a != b && b != c && a != c && (a, b) in near && (b, c) in near
  }

  /** The relation is symmetric and transitive among distinct objects. */
  ghost predicate HasClasses(near: Pairs, n: nat) {
    && (forall a: nat, b: nat :: a < n && b < n && a != b && (a, b) in near ==> (b, a) in near)
    && (forall a: nat, b: nat, c: nat :: a < n && b < n && c < n && Chain(near, a, b, c) ==> (a, c) in near)
  }

  ghost predicate SameGroup(ids: seq<nat>, a: nat, b: nat)
    requires a < |ids| && b < |ids|
  {
    ids[a] != 0 && ids[a] == ids[b]
  }

  /** The groups so far are whole classes, and each of the first `i` objects is in its group. */
  ghost predicate Settled(near: Pairs, s: Search, i: nat) {
    && s.next > 0
    && (forall k :: 0 <= k < |s.ids| ==> s.ids[k] < s.next)
    && (forall a: nat, b: nat :: a < |s.ids| && b < |s.ids| && a != b && (s.ids[a] != 0 || a < i) ==>
          (SameGroup(s.ids, a, b) <==> (a, b) in near))
  }

  /** Nothing is left to join group `g`. */
  ghost predicate Closed(near: Pairs, ids: seq<nat>, g: nat) {
    forall j: nat, k: nat :: j < |ids| && k < |ids| && ids[j] == g && ids[k] == 0 ==> (j, k) !in near
  }

  lemma {:induction false} ClosedScan(near: Pairs, ids: seq<nat>, g: nat, j: nat)
    requires g > 0 && Closed(near, ids, g)
    ensures Scan(near, ids, g, j) == (ids, -1)
    decreases |ids| - j
  {
    if j < |ids| {
      if ids[j] == g {
        assert Joined(near, ids, g, j) == ids;
        assert FirstJoining(near, ids, j, 0) == -1;
      }
      ClosedScan(near, ids, g, j + 1);
    }
  }

  /** The first row of the first scan already finds the whole class. */
  lemma CloseIsClass(near: Pairs, ids: seq<nat>, g: nat, i: nat)
    requires g > 0 && i < |ids| && ids[i] == g && Closed(near, Joined(near, ids, g, i), g)
    ensures Close(near, ids, g, i) == Joined(near, ids, g, i)
  {
    hide Closed;
    var more := Joined(near, ids, g, i);
    ClosedScan(near, more, g, i + 1);
    var first := FirstJoining(near, ids, i, 0);
    assert Scan(near, ids, g, i) == (more, first);
    FewerFree(ids, more, g);
    if first != -1 {
      ClosedScan(near, more, g, first);
      assert Close(near, more, g, first) == more;
    }
  }

  lemma JoinedIsClosed(near: Pairs, s: Search, i: nat)
    requires HasClasses(near, |s.ids|) && Settled(near, s, i) && i < |s.ids| && s.ids[i] == 0
    ensures
      var group := Joined(near, s.ids[i := s.next], s.next, i);
      && Closed(near, group, s.next)
      && (forall k: nat :: k < |s.ids| ==> (group[k] == s.next <==> k == i || (i, k) in near))
  {
    var alone := s.ids[i := s.next];
    var group := Joined(near, alone, s.next, i);
    forall k: nat | k < |s.ids| && k != i && (i, k) in near
      ensures s.ids[k] == 0
    {
      assert (k, i) in near;
      assert s.ids[k] != 0 ==> SameGroup(s.ids, k, i);
    }
    forall j: nat, k: nat | j < |group| && k < |group| && group[j] == s.next && group[k] == 0
      ensures (j, k) !in near
    {
      assert k != i && (i, k) !in near;
      assert j != i && (j, k) in near ==> Chain(near, i, j, k);
    }
  }

  lemma SettledStep(near: Pairs, s: Search, i: nat)
    requires HasClasses(near, |s.ids|) && Settled(near, s, i) && i < |s.ids| && s.ids[i] == 0
    ensures
      var alone := s.ids[i := s.next];
      var group := Close(near, alone, s.next, i);
      Settled(near, if group == alone then s.(skipped := s.skipped + 1)
          else Search(group, s.next + 1, s.skipped), i + 1)
  {
    var alone := s.ids[i := s.next];
    var group := Joined(near, alone, s.next, i);
    JoinedIsClosed(near, s, i);
    CloseIsClass(near, alone, s.next, i);
    hide Closed, Close, Joined;
    if group == alone {
      forall k: nat | k < |s.ids| && k != i
        ensures (i, k) !in near
      {
        assert group[k] != s.next;
      }
    } else {
      NewClass(near, s, i, group);
    }
  }

  lemma NewClass(near: Pairs, s: Search, i: nat, group: seq<nat>)
    requires HasClasses(near, |s.ids|) && Settled(near, s, i) && i < |s.ids| && s.ids[i] == 0
    requires Grown(s.ids, group, s.next)
    requires forall k: nat :: k < |s.ids| ==> (group[k] == s.next <==> k == i || (i, k) in near)
    ensures Settled(near, Search(group, s.next + 1, s.skipped), i + 1)
  {
    forall a: nat, b: nat | a < |group| && b < |group| && a != b && (group[a] != 0 || a < i + 1)
      ensures SameGroup(group, a, b) <==> (a, b) in near
    {
      if group[a] == s.next {
        assert a != i ==> (i, a) in near && (a, i) in near;
        assert a != i && b != i && (a, b) in near ==> Chain(near, i, a, b);
        assert a != i && b != i && (i, b) in near ==> Chain(near, a, i, b);
      } else {
        assert s.ids[a] == group[a];
        assert SameGroup(s.ids, a, b) <==> (a, b) in near;
        if group[b] == s.next {
          assert s.ids[b] != s.next;
        }
      }
    }
  }

  lemma {:induction false} GroupsSettled(near: Pairs, s: Search, i: nat)
    requires HasClasses(near, |s.ids|) && Settled(near, s, i) && i <= |s.ids|
    ensures Settled(near, Groups(near, s, i), |s.ids|)
    decreases |s.ids| - i
  {
    hide HasClasses, Close, SameGroup;
    if i == |s.ids| {
      GroupsEnd(near, s, i);
    } else {
      GroupsStep(near, s, i);
      if s.ids[i] == 0 {
        hide Settled;
        SettledNext(near, s, i);
        SettledStep(near, s, i);
        var alone := s.ids[i := s.next];
        var group := Close(near, alone, s.next, i);
        GroupsSettled(near, if group == alone then s.(skipped := s.skipped + 1)
            else Search(group, s.next + 1, s.skipped), i + 1);
      } else {
        GroupsSettled(near, s, i + 1);
      }
    }
  }

  lemma SettledNext(near: Pairs, s: Search, i: nat)
    ensures Settled(near, s, i) ==> s.next > 0
  {
  }

  /** Two objects end up in one group exactly when they are at minimal distance: this holds exactly
      for the relations that are symmetric and transitive. */
  lemma GroupsAreClasses(near: Pairs, n: nat)
    ensures
      var ids := Groups(near, Start(n), 0).ids;
      (forall a: nat, b: nat :: a < n && b < n && a != b ==> (SameGroup(ids, a, b) <==> (a, b) in near))
      <==> HasClasses(near, n)
  {
    hide Groups;
    var found := Groups(near, Start(n), 0);
    if HasClasses(near, n) {
      GroupsSettled(near, Start(n), 0);
      assert forall a: nat, b: nat :: a < n && b < n && a != b ==> (SameGroup(found.ids, a, b) <==> (a, b) in near);
    }
    if forall a: nat, b: nat :: a < n && b < n && a != b ==> (SameGroup(found.ids, a, b) <==> (a, b) in near) {
      ClassesFromGroups(near, found.ids);
    }
  }

  lemma ClassesFromGroups(near: Pairs, ids: seq<nat>)
    requires forall a: nat, b: nat :: a < |ids| && b < |ids| && a != b ==> (SameGroup(ids, a, b) <==> (a, b) in near)
    ensures HasClasses(near, |ids|)
  {
  }

  // ---- A path that the scans miss ----

  /** Objects 0, 3, 2 and 1 in a row, each at minimal distance of the next. */
  ghost const PATH: Pairs := {(0, 3), (3, 0), (3, 2), (2, 3), (2, 1), (1, 2)}

  lemma ScanStep(ids: seq<nat>, j: nat, more: seq<nat>, first: int)
    requires |ids| == |more| == 4 && j < 4 && ids[j] == 1
    requires forall k :: 0 <= k < 4 ==> more[k] == if ids[k] == 0 && (j, k) in PATH then 1 else ids[k]
    requires first == FirstJoining(PATH, ids, j, 0)
    ensures Scan(PATH, ids, 1, j) == (Scan(PATH, more, 1, j + 1).0, if first != -1 then first
        else Scan(PATH, more, 1, j + 1).1)
  {
    assert Joined(PATH, ids, 1, j) == more;
  }

  lemma ScanSkip(ids: seq<nat>, j: nat)
    requires j < |ids| && ids[j] != 1
    ensures Scan(PATH, ids, 1, j) == Scan(PATH, ids, 1, j + 1)
  {
  }

  lemma FirstScan()
    ensures Scan(PATH, [1, 0, 0, 0], 1, 0) == ([1, 0, 1, 1], 3)
  {
    hide Scan;
    var a, b, c := [1, 0, 0, 0], [1, 0, 0, 1], [1, 0, 1, 1];
    ScanStep(a, 0, b, 3);
    ScanSkip(b, 1);
    ScanSkip(b, 2);
    ScanStep(b, 3, c, 2);
    ScanEnd(c);
  }

  lemma ScanEnd(ids: seq<nat>)
    requires |ids| == 4
    ensures Scan(PATH, ids, 1, 4) == (ids, -1)
  {
  }

  lemma FirstGroup()
    ensures Close(PATH, [1, 0, 0, 0], 1, 0) == [1, 0, 1, 1]
  {
    hide Scan;
    var a, c := [1, 0, 0, 0], [1, 0, 1, 1];
    FirstScan();
    ScanStep(c, 3, c, -1);
    ScanEnd(c);
    assert Close(PATH, a, 1, 0) == Close(PATH, c, 1, 3);
  }

  /** The first scan finds 3 from 0, then 2 from 3; the second one starts at 3, the first found, and
      finds nothing. Object 1, next to 2, is left out. */
  lemma PathIsMissed()
    ensures Groups(PATH, Start(4), 0) == Search([1, 0, 1, 1], 2, 1) && (2, 1) in PATH && (1, 2) in PATH
  {
    hide Close, Groups;
    var c := [1, 0, 1, 1];
    assert Start(4).ids[0 := 1] == [1, 0, 0, 0];
    FirstGroup();
    GroupsStep(PATH, Start(4), 0);
    var s := Search(c, 2, 0);
    GroupsStep(PATH, s, 1);
    SecondGroup(c);
    var t := s.(skipped := 1);
    GroupsStep(PATH, t, 2);
    GroupsStep(PATH, t, 3);
    GroupsEnd(PATH, t, 4);
  }

  /** Object 1 finds no free object, and its group is cancelled. */
  lemma SecondGroup(c: seq<nat>)
    requires c == [1, 0, 1, 1]
    ensures Close(PATH, c[1 := 2], 2, 1) == c[1 := 2]
  {
    assert Joined(PATH, c[1 := 2], 2, 1) == c[1 := 2];
    ClosedScan(PATH, c[1 := 2], 2, 1);
  }
}
